/**
 Help reordering and command identity: exactly when moving the help flag leaves the selected service
 and the recovered command unchanged.
 */
module HelpIdentity {
  import opened Prelude
  import opened ArgumentScan
  import opened HelpReorder

  /** The first bare `-` or `--` in front of the first operand. */
  function FirstBare(items: seq<Item>): (bare: Option<string>)
    ensures bare.Some? ==> IsDash(bare.value) || IsDoubleDash(bare.value)
  {
    if items == [] || items[0].Operand? then None
    else if items[0].Flag? && (IsDash(items[0].flag) || IsDoubleDash(items[0].flag)) then Some(items[0].flag)
    else FirstBare(items[1..])
  }

  /** An argument before the help flag that settles the service by itself. */
  predicate SettlesService(argument: string) {
    !IsOption(argument) || IsDash(argument) || IsDoubleDash(argument)
  }

  /**
   What a caller can check before rewriting. With an option before the help flag, that option must not
   take the operand that moves next to it; and no bare dash may precede the first operand. (If it does
   take the only operand, a `--` before that operand hides the service either way.)
   */
  predicate KeepsIdentity(table: OptionTable, arguments: seq<string>)
    requires Rewrites(table, arguments)
  {
    var tail := Tail(table, arguments);
    var operands := Operands(tail);
    if HelpIndex(arguments) == 2 && SettlesService(arguments[1]) then true
    else if HelpIndex(arguments) == 2 && HasSeparateValue(table, arguments[1], Some(operands[0])) then
      |operands| == 1 && FirstBare(tail).Some? && IsDoubleDash(FirstBare(tail).value)
    else FirstBare(tail).None?
  }

  /** The service that a tail of items selects. */
  lemma {:induction false} SelectOfTail(items: seq<Item>)
    ensures match FirstBare(items)
            case Some(bare) =>
              Select(items) == if IsDoubleDash(bare) then NoService else Service(bare, Operands(items))
            case None =>
              Select(items)
              == if Operands(items) == [] then NoService else Service(Operands(items)[0], Operands(items)[1..])
  {
    if items != [] {
      SelectOfTail(items[1..]);
    }
  }

  /** Options alone select nothing but a bare dash, with no tokens. */
  lemma {:induction false} SelectOfOptions(items: seq<Item>)
    ensures var selected := Select(Options(items));
            && (selected.Service? ==> IsDash(selected.name) && selected.tokens == [])
            && (FirstBare(items).Some? && IsDoubleDash(FirstBare(items).value) ==> selected.NoService?)
  {
    if items != [] {
      SelectOfOptions(items[1..]);
      if !items[0].Operand? {
        SelectOfCons(items[0], Options(items[1..]));
        assert Options(items) == [items[0]] + Options(items[1..]);
        OperandsOfOptions(items[1..]);
      }
    }
  }

  /** Before the rewriting. */
  lemma {:induction false} IdentityBefore(table: OptionTable, arguments: seq<string>)
    requires table.Valid() && Rewrites(table, arguments)
    ensures var tail := Tail(table, arguments);
            CommandIdentity(table, arguments)
            == if HelpIndex(arguments) == 2 && SettlesService(arguments[1])
               then Select([if IsOption(arguments[1]) then Flag(arguments[1]) else Operand(arguments[1])] + tail)
               else Select(tail)
  {
    var help := HelpIndex(arguments);
    var tail := Tail(table, arguments);
    var flag := Flag(arguments[help]);
    HelpTakesNoValue(table, arguments[help], Next(arguments, help + 1));
    SelectOfCons(flag, tail);
    assert Items(table, arguments, help) == [flag] + tail;
    assert Operands([flag] + tail) == Operands(tail) by {
      assert ([flag] + tail)[1..] == tail;
    }
    if help == 2 {
      var x := arguments[1];
      if IsDash(x) || IsDoubleDash(x) {
        DashesTakeNoValue(table, x, Next(arguments, 2));
      }
      if x == NO_COLOR && TakesNext(table, arguments, 1) {
        BoolishIsOperand(table, arguments[2]);
        assert false;
      }
      SelectOfCons(Operand(x), [flag] + tail);
      SelectOfCons(Operand(x), tail);
      SelectOfCons(Flag(x), [flag] + tail);
      SelectOfCons(Flag(x), tail);
      SelectOfCons(FlagWithValue(x, arguments[2]), tail);
    }
  }

  lemma {:induction false} PrependCons(texts: seq<string>, rest: seq<Item>)
    requires texts != [] && Operands(rest) == []
    ensures Prepend(texts, rest) == [Operand(texts[0])] + Prepend(texts[1..], rest)
    ensures Select(Prepend(texts, rest)) == Service(texts[0], texts[1..])
  {
    PrependReads(texts[1..], rest);
    SelectOfCons(Operand(texts[0]), Prepend(texts[1..], rest));
  }

  /** The items after the first argument of the rewritten command line. */
  lemma {:induction false} ItemsAfter(table: OptionTable, arguments: seq<string>)
    requires table.Valid() && Rewrites(table, arguments)
    ensures var tail := Tail(table, arguments);
            var help := HelpIndex(arguments);
            var normalized := Normalize(table, arguments);
            && Settled(table, tail)
            && Items(table, normalized, help) == Reordered(tail, arguments[help])
            && help < |normalized| && normalized[help] == Operands(tail)[0]
            && (help == 2 ==> normalized[1] == arguments[1])
            && Items(table, normalized, help + 1)
               == Prepend(Operands(tail)[1..], [Flag(arguments[help])] + Options(tail))
  {
    var tail := Tail(table, arguments);
    var help := HelpIndex(arguments);
    var normalized := Normalize(table, arguments);
    TailText(table, arguments);
    NormalizeKeepsOrder(table, arguments);
    OperandsAreNotOptions(table, tail);
    assert normalized[help] == Operands(tail)[0];
    if help == 2 {
      assert normalized[..help][1] == arguments[..help][1];
    }
    var reordered := Reordered(tail, arguments[help]);
    assert reordered[1..] == Items(table, normalized, help + 1);
    assert reordered[1..] == Prepend(Operands(tail)[1..], [Flag(arguments[help])] + Options(tail));
  }

  /** After the rewriting. */
  lemma {:induction false} IdentityAfter(table: OptionTable, arguments: seq<string>)
    requires table.Valid() && Rewrites(table, arguments)
    ensures var tail := Tail(table, arguments);
            var operands := Operands(tail);
            CommandIdentity(table, Normalize(table, arguments))
            == if HelpIndex(arguments) == 2 && SettlesService(arguments[1])
               then Select([if IsOption(arguments[1]) then Flag(arguments[1]) else Operand(arguments[1])] + tail)
               else if HelpIndex(arguments) == 2 && HasSeparateValue(table, arguments[1], Some(operands[0]))
               then if |operands| == 1 then Select(Options(tail)) else Service(operands[1], operands[2..])
               else Service(operands[0], operands[1..])
  {
    var tail := Tail(table, arguments);
    var operands := Operands(tail);
    var help := HelpIndex(arguments);
    var normalized := Normalize(table, arguments);
    var options := [Flag(arguments[help])] + Options(tail);
    ItemsAfter(table, arguments);
    OptionsAreSettled(table, tail);
    OperandsOfOptions(tail);
    HelpThenOptions(table, arguments[help], Options(tail));
    PrependCons(operands, options);
    HelpTakesNoValue(table, arguments[help], None);
    SelectOfCons(Flag(arguments[help]), Options(tail));
    if help == 2 {
      var x := arguments[1];
      var reordered := Prepend(operands, options);
      ReorderedReads(table, tail, arguments[help]);
      assert Next(normalized, 2) == Some(operands[0]);
      if IsDash(x) || IsDoubleDash(x) {
        DashesTakeNoValue(table, x, Next(normalized, 2));
      }
      SelectOfCons(Operand(x), reordered);
      SelectOfCons(Operand(x), tail);
      SelectOfCons(Flag(x), reordered);
      SelectOfCons(Flag(x), tail);
      SelectOfCons(FlagWithValue(x, operands[0]), Prepend(operands[1..], options));
      if |operands| > 1 {
        PrependCons(operands[1..], options);
        assert operands[1..][1..] == operands[2..];
      }
    }
  }

  /** Rewriting keeps the selected service and the recovered tokens exactly under the condition above. */
  lemma {:induction false} IdentityKeptIff(table: OptionTable, arguments: seq<string>)
    requires table.Valid() && Rewrites(table, arguments)
    ensures CommandIdentity(table, Normalize(table, arguments)) == CommandIdentity(table, arguments)
            <==> KeepsIdentity(table, arguments)
  {
    var tail := Tail(table, arguments);
    var operands := Operands(tail);
    IdentityBefore(table, arguments);
    IdentityAfter(table, arguments);
    SelectOfTail(tail);
    SelectOfOptions(tail);
    TailText(table, arguments);
    OperandsAreNotOptions(table, tail);
  }

  /** It can fail: `cli -P -h tos` selects `tos`, but rewritten to `cli -P tos -h` the option swallows it. */
  lemma {:induction false} IdentityCanChange()
    ensures exists table: OptionTable, arguments: seq<string> ::
              table.Valid() && Rewrites(table, arguments)
              && CommandIdentity(table, Normalize(table, arguments)) != CommandIdentity(table, arguments)
  {
    var table := OptionTable({"-P"}, {});
    var arguments := ["cli", "-P", "-h", "tos"];
    assert |NO_COLOR| == 10;
    assert "-P"[1..] == "P" && ['-', "P"[0]] == "-P";
    assert "-h"[1] != "-P"[1] && "--"[1] != "-P"[1];
    HelpIndexIs(arguments, 2);
    var tail := Tail(table, arguments);
    assert tail == [Operand("tos")] + Items(table, arguments, 4);
    assert Operands(tail) == ["tos"];
    assert HasSeparateValue(table, "-P", Some("tos"));
    assert FirstBare(tail).None?;
    IdentityKeptIff(table, arguments);
  }
}

/**
 The option/value boundary of src/lib.rs and the three scanners that share it: service selection
 (`tool_position`), command recovery (`recovered_command_tokens`, `recovered_command_path`) and help
 reordering (module HelpReorder).

 The option table is a parameter: everything below holds for every table that gives no value to
 `--help`, `-h` or `--` and lists no boolish value that starts with a dash, as the repository's does.
 */
module ArgumentScan {
  import opened Prelude
  import opened Strings

  const NO_COLOR := "--no-color"

  /**
   The options and short flags (`-P`) for which `flag_takes_value` holds, and the lower-case values
   that clap's boolish parser lists.
   */
  datatype OptionTable = OptionTable(valued: set<string>, boolish: set<string>) {
    ghost predicate Valid() {
      && "--help" !in valued && "-h" !in valued && "--" !in valued
      && forall value :: value in boolish ==> !IsOption(value)
    }
  }

  predicate IsOption(argument: string) {
    argument != "" && argument[0] == '-'
  }

  /** The argument `-`. */
  predicate IsDash(argument: string) {
    |argument| == 1 && argument[0] == '-'
  }

  /** The argument `--`. */
  predicate IsDoubleDash(argument: string) {
    |argument| == 2 && argument[0] == argument[1] == '-'
  }

  predicate IsLong(argument: string) {
    |argument| >= 2 && argument[0] == argument[1] == '-'
  }

  predicate IsHelp(argument: string) {
    argument == "--help" || argument == "-h"
  }

  /** A value that clap's boolish parser lists, in any letter case. */
  predicate IsBoolish(table: OptionTable, value: string) {
    AsciiLower(value) in table.boolish
  }

  lemma {:induction false} BoolishIsOperand(table: OptionTable, value: string)
    requires table.Valid() && IsBoolish(table, value)
    ensures !IsOption(value)
  {
  }

  /** A short-option cluster takes the next argument when its first value-taking option is its last. */
  predicate ClusterTakesNext(table: OptionTable, shorts: string) {
    if shorts == "" then false
    else if ['-', shorts[0]] in table.valued then |shorts| == 1
    else ClusterTakesNext(table, shorts[1..])
  }

  /** That is: when its last option takes a value and no other one does, which would have it attached. */
  lemma {:induction false} ClusterTakesNextIff(table: OptionTable, shorts: string)
    ensures ClusterTakesNext(table, shorts)
            <==> && shorts != "" && ['-', shorts[|shorts| - 1]] in table.valued
                 && forall i :: 0 <= i < |shorts| - 1 ==> ['-', shorts[i]] !in table.valued
  {
    if shorts != "" {
      var rest := shorts[1..];
      ClusterTakesNextIff(table, rest);
      assert forall i :: 0 <= i < |rest| ==> rest[i] == shorts[i + 1];
      assert forall i :: 0 < i < |shorts| ==> shorts[i] == rest[i - 1];
    }
  }

  /** Whether an option other than `--no-color` takes the next argument, whatever that is. */
  predicate TakesValue(table: OptionTable, argument: string) {
    if IsLong(argument) then argument in table.valued
    else IsOption(argument) && ClusterTakesNext(table, argument[1..])
  }

  /** `has_separate_option_value`. */
  predicate HasSeparateValue(table: OptionTable, argument: string, next: Option<string>) {
    if argument == NO_COLOR then next.Some? && IsBoolish(table, next.value) else TakesValue(table, argument)
  }

  function Next(arguments: seq<string>, index: nat): Option<string> {
    if index < |arguments| then Some(arguments[index]) else None
  }

  /** Whether the option at `index` takes the argument after it. */
  predicate TakesNext(table: OptionTable, arguments: seq<string>, index: nat)
    requires index < |arguments|
  {
    HasSeparateValue(table, arguments[index], Next(arguments, index + 1))
  }

  // ----- The shared reading: operands, options and options with a value -----

  datatype Item = Operand(text: string) | Flag(flag: string) | FlagWithValue(flag: string, value: string)

  /** The items read from `arguments`, starting at `index`. */
  function Items(table: OptionTable, arguments: seq<string>, index: nat): seq<Item>
    decreases |arguments| - index
  {
    if index >= |arguments| then []
    else if !IsOption(arguments[index]) then [Operand(arguments[index])] + Items(table, arguments, index + 1)
    else if TakesNext(table, arguments, index) && index + 1 < |arguments| then
      [FlagWithValue(arguments[index], arguments[index + 1])] + Items(table, arguments, index + 2)
    else [Flag(arguments[index])] + Items(table, arguments, index + 1)
  }

  function ItemText(item: Item): (text: seq<string>)
    ensures text != []
  {
    match item
    case Operand(text) => [text]
    case Flag(flag) => [flag]
    case FlagWithValue(flag, value) => [flag, value]
  }

  /** The arguments an item sequence stands for. */
  function Text(items: seq<Item>): (text: seq<string>)
    ensures items != [] ==> text != [] && text[0] == ItemText(items[0])[0]
    ensures items == [] ==> text == []
  {
    if items == [] then [] else ItemText(items[0]) + Text(items[1..])
  }

  function Operands(items: seq<Item>): seq<string> {
    if items == [] then []
    else if items[0].Operand? then [items[0].text] + Operands(items[1..])
    else Operands(items[1..])
  }

  function Options(items: seq<Item>): seq<Item> {
    if items == [] then []
    else if items[0].Operand? then Options(items[1..])
    else [items[0]] + Options(items[1..])
  }

  /** Item sequences that the scan can produce: no item would be read differently next to its successor. */
  ghost predicate Settled(table: OptionTable, items: seq<Item>) {
    items == []
    || (Settled(table, items[1..])
        && match items[0]
           case Operand(text) => !IsOption(text)
           case FlagWithValue(flag, value) => IsOption(flag) && HasSeparateValue(table, flag, Some(value))
           case Flag(flag) =>
             IsOption(flag)
             && (items[1..] != [] ==> !HasSeparateValue(table, flag, Some(ItemText(items[1])[0]))))
  }

  /** The items depend only on the arguments from the index on. */
  lemma {:induction false} ItemsShift(table: OptionTable, a: seq<string>, i: nat, b: seq<string>, j: nat)
    requires i <= |a| && j <= |b| && a[i..] == b[j..]
    ensures Items(table, a, i) == Items(table, b, j)
    decreases |a| - i
  {
    assert |a| - i == |b| - j;
    if i < |a| {
      assert a[i] == a[i..][0] == b[j];
      assert a[i + 1..] == a[i..][1..] == b[j + 1..];
      ItemsShift(table, a, i + 1, b, j + 1);
      if i + 1 < |a| {
        assert a[i + 1] == a[i..][1] == b[j + 1];
        assert a[i + 2..] == a[i..][2..] == b[j + 2..];
        ItemsShift(table, a, i + 2, b, j + 2);
      }
    }
  }

  /** Reading and writing back loses nothing, and what is read is settled. */
  lemma {:induction false} TextOfItems(table: OptionTable, arguments: seq<string>, index: nat)
    requires index <= |arguments|
    ensures Text(Items(table, arguments, index)) == arguments[index..]
    ensures Settled(table, Items(table, arguments, index))
    decreases |arguments| - index
  {
    if index < |arguments| {
      var items := Items(table, arguments, index);
      assert arguments[index..] == [arguments[index]] + arguments[index + 1..];
      if items[0].FlagWithValue? {
        TextOfItems(table, arguments, index + 2);
        assert items[1..] == Items(table, arguments, index + 2);
        assert arguments[index + 1..] == [arguments[index + 1]] + arguments[index + 2..];
      } else {
        TextOfItems(table, arguments, index + 1);
        assert items[1..] == Items(table, arguments, index + 1);
      }
    }
  }

  /** A settled item sequence is read back as itself: the scan is the inverse of writing out. */
  lemma {:induction false} ItemsOfText(table: OptionTable, items: seq<Item>)
    requires Settled(table, items)
    ensures Items(table, Text(items), 0) == items
  {
    if items != [] {
      var text := Text(items);
      var rest := items[1..];
      var n := |ItemText(items[0])|;
      ItemsOfText(table, rest);
      assert text[n..] == Text(rest) == Text(rest)[0..];
      ItemsShift(table, text, n, Text(rest), 0);
      assert items == [items[0]] + rest;
    }
  }

  lemma {:induction false} OperandsOfOptions(items: seq<Item>)
    ensures Operands(Options(items)) == []
  {
    if items != [] {
      OperandsOfOptions(items[1..]);
      if items[0].Operand? {
        assert Options(items) == Options(items[1..]);
      } else {
        assert Options(items)[1..] == Options(items[1..]);
      }
    }
  }

  lemma {:induction false} OperandsAreNotOptions(table: OptionTable, items: seq<Item>)
    requires Settled(table, items)
    ensures forall i :: 0 <= i < |Operands(items)| ==> !IsOption(Operands(items)[i])
  {
    if items != [] {
      OperandsAreNotOptions(table, items[1..]);
    }
  }

  // ----- The boundary, from the option table alone -----

  lemma {:induction false} ItemsOfRest(table: OptionTable, front: seq<string>, rest: seq<string>)
    ensures Items(table, front + rest, |front|) == Items(table, rest, 0)
  {
    assert (front + rest)[|front|..] == rest == rest[0..];
    ItemsShift(table, front + rest, |front|, rest, 0);
  }

  lemma {:induction false} FirstOfPair(table: OptionTable, option: string, next: string, rest: seq<string>)
    requires IsOption(option)
    ensures Items(table, [option, next] + rest, 0)
            == if HasSeparateValue(table, option, Some(next)) then [FlagWithValue(option, next)] + Items(table, rest, 0)
               else [Flag(option)] + Items(table, [next] + rest, 0)
  {
    ItemsOfRest(table, [option, next], rest);
    ItemsOfRest(table, [option], [next] + rest);
    assert [option] + ([next] + rest) == [option, next] + rest;
  }

  /** A long option takes the next argument, whatever that is, exactly when the table lists it. */
  lemma {:induction false} LongOptionReads(table: OptionTable, option: string, next: string, rest: seq<string>)
    requires "--" <= option && option != "--no-color"
    ensures Items(table, [option, next] + rest, 0)
            == if option in table.valued then [FlagWithValue(option, next)] + Items(table, rest, 0)
               else [Flag(option)] + Items(table, [next] + rest, 0)
  {
    assert option[0] == option[1] == '-';
    FirstOfPair(table, option, next, rest);
  }

  /** `--no-color` takes it exactly when it is a boolish value, in any letter case. */
  lemma {:induction false} NoColorReads(table: OptionTable, next: string, rest: seq<string>)
    ensures Items(table, ["--no-color", next] + rest, 0)
            == if AsciiLower(next) in table.boolish then [FlagWithValue("--no-color", next)] + Items(table, rest, 0)
               else [Flag("--no-color")] + Items(table, [next] + rest, 0)
  {
    FirstOfPair(table, "--no-color", next, rest);
  }

  /** Short options take it exactly when the last one takes a value and none before it does; a bare dash never. */
  lemma {:induction false} ShortOptionsRead(table: OptionTable, shorts: string, next: string, rest: seq<string>)
    requires shorts == "" || shorts[0] != '-'
    ensures Items(table, ["-" + shorts, next] + rest, 0)
            == if shorts != "" && ['-', shorts[|shorts| - 1]] in table.valued
                  && forall i :: 0 <= i < |shorts| - 1 ==> ['-', shorts[i]] !in table.valued
               then [FlagWithValue("-" + shorts, next)] + Items(table, rest, 0)
               else [Flag("-" + shorts)] + Items(table, [next] + rest, 0)
  {
    var option := "-" + shorts;
    assert option[1..] == shorts && option != NO_COLOR;
    ClusterTakesNextIff(table, shorts);
    FirstOfPair(table, option, next, rest);
  }

  /** Text that does not start with a dash is an operand, and the last argument takes no value. */
  lemma {:induction false} OperandReads(table: OptionTable, argument: string, rest: seq<string>)
    ensures !("-" <= argument) ==> Items(table, [argument] + rest, 0) == [Operand(argument)] + Items(table, rest, 0)
    ensures "-" <= argument ==> Items(table, [argument], 0) == [Flag(argument)]
    ensures Items(table, [], 0) == []
  {
    ItemsOfRest(table, [argument], rest);
    assert argument != "" && argument[0] == '-' ==> argument[..1] == "-";
  }

  // ----- Service selection and command recovery -----

  predicate MatchesTool(argument: string, tool: string) {
    if tool == "byted-tos" then argument == "tos" else argument == tool
  }

  /** The index at which `tool_position` stops scanning for the root operand. */
  function RootFrom(table: OptionTable, arguments: seq<string>, index: nat): (root: Option<nat>)
    ensures root.Some? ==> index <= root.value < |arguments|
    decreases |arguments| - index
  {
    if index >= |arguments| || IsDoubleDash(arguments[index]) then None
    else if !IsOption(arguments[index]) || IsDash(arguments[index]) then Some(index)
    else if TakesNext(table, arguments, index) then RootFrom(table, arguments, index + 2)
    else RootFrom(table, arguments, index + 1)
  }

  /** `tool_position` as a function. */
  function ToolPosition(table: OptionTable, arguments: seq<string>, tool: string): Option<nat> {
    match RootFrom(table, arguments, 1)
    case None => None
    case Some(index) => if MatchesTool(arguments[index], tool) then Some(index) else None
  }

  method FindTool(table: OptionTable, arguments: seq<string>, tool: string) returns (position: Option<nat>)
    ensures position == ToolPosition(table, arguments, tool)
  {
    var index := 1;
    while index < |arguments|
      invariant index >= 1
      invariant ToolPosition(table, arguments, tool)
                == match RootFrom(table, arguments, index)
                   case None => None
                   case Some(root) => if MatchesTool(arguments[root], tool) then Some(root) else None
    {
      var argument := arguments[index];
      if IsDoubleDash(argument) {
        return None;
      }
      if !IsOption(argument) || IsDash(argument) {
        return if MatchesTool(argument, tool) then Some(index) else None;
      }
      if TakesNext(table, arguments, index) {
        index := index + 2;
      } else {
        index := index + 1;
      }
    }
    return None;
  }

  /** `recovered_command_tokens`: the operands, with option values skipped. */
  method RecoverTokens(table: OptionTable, arguments: seq<string>) returns (tokens: seq<string>)
    ensures tokens == Operands(Items(table, arguments, 0))
  {
    tokens := [];
    var index := 0;
    while index < |arguments|
      invariant Operands(Items(table, arguments, 0)) == tokens + Operands(Items(table, arguments, index))
    {
      var argument := arguments[index];
      if !IsOption(argument) {
        tokens := tokens + [argument];
        index := index + 1;
      } else if TakesNext(table, arguments, index) {
        index := index + 2;
      } else {
        index := index + 1;
      }
    }
  }

  /** The service a command line selects and the operands that follow it: all that command recovery uses. */
  datatype Identity = NoService | Service(name: string, tokens: seq<string>)

  function Select(items: seq<Item>): Identity {
    if items == [] then NoService
    else if items[0].Operand? then Service(items[0].text, Operands(items[1..]))
    else if items[0].Flag? && IsDoubleDash(items[0].flag) then NoService
    else if items[0].Flag? && IsDash(items[0].flag) then Service(items[0].flag, Operands(items[1..]))
    else Select(items[1..])
  }

  function CommandIdentity(table: OptionTable, arguments: seq<string>): Identity {
    Select(Items(table, arguments, 1))
  }

  /** The service at a root position and the operands read after it. */
  function IdentityAt(table: OptionTable, arguments: seq<string>, root: Option<nat>): Identity
    requires root.Some? ==> root.value < |arguments|
  {
    if root.None? then NoService
    else Service(arguments[root.value], Operands(Items(table, arguments, root.value + 1)))
  }

  lemma {:induction false} DashesTakeNoValue(table: OptionTable, argument: string, next: Option<string>)
    requires table.Valid() && (IsDash(argument) || IsDoubleDash(argument))
    ensures !HasSeparateValue(table, argument, next)
  {
    if IsDoubleDash(argument) {
      assert argument == "--";
    }
  }

  lemma {:induction false} SelectOfCons(item: Item, rest: seq<Item>)
    ensures Select([item] + rest)
            == if item.Operand? then Service(item.text, Operands(rest))
               else if item.Flag? && IsDoubleDash(item.flag) then NoService
               else if item.Flag? && IsDash(item.flag) then Service(item.flag, Operands(rest))
               else Select(rest)
  {
  }

  lemma {:induction false} RootIsSelected(table: OptionTable, arguments: seq<string>, index: nat)
    requires table.Valid()
    ensures Select(Items(table, arguments, index)) == IdentityAt(table, arguments, RootFrom(table, arguments, index))
    decreases |arguments| - index
  {
    if index < |arguments| {
      var argument := arguments[index];
      if IsDash(argument) || IsDoubleDash(argument) {
        DashesTakeNoValue(table, argument, Next(arguments, index + 1));
        SelectOfCons(Flag(argument), Items(table, arguments, index + 1));
      } else if !IsOption(argument) {
        SelectOfCons(Operand(argument), Items(table, arguments, index + 1));
      } else if !TakesNext(table, arguments, index) {
        SelectOfCons(Flag(argument), Items(table, arguments, index + 1));
        RootIsSelected(table, arguments, index + 1);
      } else if index + 1 < |arguments| {
        SelectOfCons(FlagWithValue(argument, arguments[index + 1]), Items(table, arguments, index + 2));
        RootIsSelected(table, arguments, index + 2);
      } else {
        SelectOfCons(Flag(argument), []);
      }
    }
  }

  /**
   Service selection and command recovery read the same items: a tool is found exactly when it is the
   selected service, and the recovered tokens are exactly the operands after it.
   */
  lemma {:induction false} ScannersAgree(table: OptionTable, arguments: seq<string>, tool: string)
    requires table.Valid()
    ensures var identity := CommandIdentity(table, arguments);
            var position := ToolPosition(table, arguments, tool);
            && (position.Some? <==> identity.Service? && MatchesTool(identity.name, tool))
            && (position.Some? ==>
                  position.value < |arguments|
                  && arguments[position.value] == identity.name
                  && Operands(Items(table, arguments[position.value + 1..], 0)) == identity.tokens)
  {
    RootIsSelected(table, arguments, 1);
    var position := ToolPosition(table, arguments, tool);
    if position.Some? {
      var after := arguments[position.value + 1..];
      assert after[0..] == after;
      ItemsShift(table, arguments, position.value + 1, after, 0);
    }
  }

  // ----- Where the tool is found -----

  /** Options with or without a value, but no operand and no bare dash. */
  ghost predicate OnlyOptions(items: seq<Item>) {
    forall i :: 0 <= i < |items| ==>
      !items[i].Operand? && !(items[i].Flag? && (IsDash(items[i].flag) || IsDoubleDash(items[i].flag)))
  }

  lemma {:induction false} RootSkipsOption(table: OptionTable, arguments: seq<string>, index: nat,
                                           option: Item, rest: seq<Item>)
    requires table.Valid() && index < |arguments| && OnlyOptions([option]) && rest != []
    requires Items(table, arguments, index) == [option] + rest
    ensures var next := index + |ItemText(option)|;
            && Items(table, arguments, next) == rest && next < |arguments|
            && RootFrom(table, arguments, index) == RootFrom(table, arguments, next)
  {
    var items := Items(table, arguments, index);
    assert items[0] == option && items[1..] == rest;
    assert option == [option][0];
    if IsDash(arguments[index]) || IsDoubleDash(arguments[index]) {
      DashesTakeNoValue(table, arguments[index], Next(arguments, index + 1));
    }
  }

  lemma {:induction false} RootAfterOptions(table: OptionTable, arguments: seq<string>, index: nat,
                                            options: seq<Item>, name: string, more: seq<Item>)
    requires table.Valid() && index <= |arguments| && OnlyOptions(options)
    requires Items(table, arguments, index) == options + [Operand(name)] + more
    ensures RootFrom(table, arguments, index) == Some(index + |Text(options)|)
    ensures index + |Text(options)| < |arguments| && arguments[index + |Text(options)|] == name
    decreases |options|
  {
    if options == [] {
      assert Items(table, arguments, index)[0] == Operand(name);
    } else {
      var rest := options[1..] + [Operand(name)] + more;
      assert Items(table, arguments, index) == [options[0]] + rest;
      RootSkipsOption(table, arguments, index, options[0], rest);
      RootAfterOptions(table, arguments, index + |ItemText(options[0])|, options[1..], name, more);
    }
  }

  /** The service is found right behind the options in front of it, each with its own value. */
  lemma {:induction false} ToolIsFirstOperand(table: OptionTable, arguments: seq<string>, options: seq<Item>,
                                              name: string, more: seq<Item>, tool: string)
    requires table.Valid() && arguments != [] && OnlyOptions(options)
    requires Items(table, arguments, 1) == options + [Operand(name)] + more
    ensures ToolPosition(table, arguments, tool)
            == if name == (if tool == "byted-tos" then "tos" else tool) then Some(1 + |Text(options)|) else None
  {
    RootAfterOptions(table, arguments, 1, options, name, more);
  }

  /** So the value of a listed long option is not mistaken for the service, nor for a command token. */
  lemma {:induction false} ValueIsNoService(table: OptionTable, cli: string, option: string, value: string,
                                            tool: string, rest: seq<string>)
    requires table.Valid() && "--" <= option && option != "--no-color" && option in table.valued
    requires !("-" <= tool) && tool != "byted-tos"
    ensures var arguments := [cli, option, value, tool] + rest;
            && ToolPosition(table, arguments, tool) == Some(3)
            && CommandIdentity(table, arguments) == Service(tool, Operands(Items(table, rest, 0)))
            && Operands(Items(table, [option, value] + rest, 0)) == Operands(Items(table, rest, 0))
  {
    var arguments := [cli, option, value, tool] + rest;
    var options := [FlagWithValue(option, value)];
    var more := Items(table, rest, 0);
    LongOptionReads(table, option, value, [tool] + rest);
    LongOptionReads(table, option, value, rest);
    OperandReads(table, tool, rest);
    assert arguments == [cli] + ([option, value] + ([tool] + rest));
    ItemsOfRest(table, [cli], [option, value] + ([tool] + rest));
    assert Items(table, arguments, 1) == options + [Operand(tool)] + more;
    assert options[1..] == [] && Text(options) == [option, value];
    ToolIsFirstOperand(table, arguments, options, tool, more, tool);
    ScannersAgree(table, arguments, tool);
    assert arguments[4..] == rest;
    assert ([FlagWithValue(option, value)] + more)[1..] == more;
  }

  /** Nothing is a service behind `--`, and a bare dash hides every named service behind it. */
  lemma {:induction false} DashesHideServices(table: OptionTable, arguments: seq<string>, tool: string)
    requires |arguments| > 1
    ensures arguments[1] == "--" ==> ToolPosition(table, arguments, tool) == None
    ensures arguments[1] == "-" && tool != "-" ==> ToolPosition(table, arguments, tool) == None
  {
  }
}

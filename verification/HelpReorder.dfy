/**
 `normalize_leading_help_flag` of src/lib.rs: a help flag in front of the command is moved behind the
 command's operands, and the options after it behind the help flag.
 */
module HelpReorder {
  import opened Prelude
  import opened ArgumentScan

  /** The position of the first help flag, or the number of arguments. */
  function HelpIndex(arguments: seq<string>): (i: nat)
    ensures i <= |arguments|
    ensures i < |arguments| ==> IsHelp(arguments[i])
    ensures forall j :: 0 <= j < i ==> !IsHelp(arguments[j])
  {
    if arguments == [] || IsHelp(arguments[0]) then 0 else 1 + HelpIndex(arguments[1..])
  }

  /** What follows the help flag. */
  function Tail(table: OptionTable, arguments: seq<string>): seq<Item> {
    Items(table, arguments, HelpIndex(arguments) + 1)
  }

  /** Whether the arguments are rewritten at all. */
  predicate Rewrites(table: OptionTable, arguments: seq<string>) {
    var help := HelpIndex(arguments);
    help < |arguments| && 1 <= help <= 2 && Operands(Tail(table, arguments)) != []
  }

  /** The rewritten arguments; the imperative form is NormalizeLeadingHelpFlag. */
  function Normalize(table: OptionTable, arguments: seq<string>): seq<string> {
    if !Rewrites(table, arguments) then arguments
    else
      var help := HelpIndex(arguments);
      var tail := Tail(table, arguments);
      arguments[..help] + Operands(tail) + [arguments[help]] + Text(Options(tail))
  }

  method NormalizeLeadingHelpFlag(table: OptionTable, arguments: seq<string>) returns (normalized: seq<string>)
    ensures normalized == Normalize(table, arguments)
  {
    var help := HelpIndex(arguments);
    if help == |arguments| || help == 0 || help > 2 {
      return arguments;
    }
    var commandTokens, deferredFlags := SplitTail(table, arguments, help + 1);
    if commandTokens == [] {
      return arguments;
    }
    return arguments[..help] + commandTokens + [arguments[help]] + deferredFlags;
  }

  /** The loop over the arguments after the help flag. */
  method SplitTail(table: OptionTable, arguments: seq<string>, start: nat)
    returns (commandTokens: seq<string>, deferredFlags: seq<string>)
    ensures commandTokens == Operands(Items(table, arguments, start))
    ensures deferredFlags == Text(Options(Items(table, arguments, start)))
  {
    commandTokens, deferredFlags := [], [];
    var index := start;
    NoItems();
    hide Operands, Options, Text;
    while index < |arguments|
      invariant Operands(Items(table, arguments, start)) == commandTokens + Operands(Items(table, arguments, index))
      invariant Text(Options(Items(table, arguments, start)))
                == deferredFlags + Text(Options(Items(table, arguments, index)))
    {
      var argument := arguments[index];
      if !IsOption(argument) {
        ConsSplits(Operand(argument), Items(table, arguments, index + 1));
        Assoc(commandTokens, [argument], Operands(Items(table, arguments, index + 1)));
        commandTokens := commandTokens + [argument];
        index := index + 1;
      } else if !TakesNext(table, arguments, index) {
        ConsSplits(Flag(argument), Items(table, arguments, index + 1));
        Assoc(deferredFlags, [argument], Text(Options(Items(table, arguments, index + 1))));
        deferredFlags := deferredFlags + [argument];
        index := index + 1;
      } else if index + 1 < |arguments| {
        ConsSplits(FlagWithValue(argument, arguments[index + 1]), Items(table, arguments, index + 2));
        Assoc(deferredFlags, [argument, arguments[index + 1]], Text(Options(Items(table, arguments, index + 2))));
        deferredFlags := deferredFlags + [argument, arguments[index + 1]];
        index := index + 2;
      } else {
        ConsSplits(Flag(argument), []);
        deferredFlags := deferredFlags + [argument];
        index := index + 2;
      }
    }
  }

  lemma {:induction false} NoItems()
    ensures Operands([]) == [] && Text(Options([])) == []
  {
  }

  lemma {:induction false} ConsSplits(item: Item, rest: seq<Item>)
    ensures Operands([item] + rest) == if item.Operand? then [item.text] + Operands(rest) else Operands(rest)
    ensures Text(Options([item] + rest))
            == if item.Operand? then Text(Options(rest)) else ItemText(item) + Text(Options(rest))
  {
  }

  // ----- What the rewriting keeps -----

  /** Operands and options, side by side, hold every argument of the tail. */
  lemma {:induction false} TextPermutes(items: seq<Item>)
    ensures multiset(Text(items)) == multiset(Operands(items)) + multiset(Text(Options(items)))
  {
    if items != [] {
      TextPermutes(items[1..]);
      assert items == [items[0]] + items[1..];
      ConsSplits(items[0], items[1..]);
    }
  }

  lemma {:induction false} MovePermutes(front: seq<string>, help: string, tail: seq<string>, a: seq<string>,
                                        b: seq<string>)
    requires multiset(tail) == multiset(a) + multiset(b)
    ensures multiset(front + a + [help] + b) == multiset(front + [help] + tail)
  {
  }

  lemma {:induction false} TailText(table: OptionTable, arguments: seq<string>)
    requires HelpIndex(arguments) < |arguments|
    ensures var help := HelpIndex(arguments);
            arguments == arguments[..help] + [arguments[help]] + Text(Tail(table, arguments))
            && Settled(table, Tail(table, arguments))
  {
    TextOfItems(table, arguments, HelpIndex(arguments) + 1);
  }

  /** Nothing is added, lost or repeated. */
  lemma {:induction false} NormalizePermutes(table: OptionTable, arguments: seq<string>)
    ensures multiset(Normalize(table, arguments)) == multiset(arguments)
  {
    if Rewrites(table, arguments) {
      var help := HelpIndex(arguments);
      var tail := Tail(table, arguments);
      TailText(table, arguments);
      TextPermutes(tail);
      MovePermutes(arguments[..help], arguments[help], Text(tail), Operands(tail), Text(Options(tail)));
    }
  }

  /** Operands put in front of an item sequence. */
  function Prepend(texts: seq<string>, rest: seq<Item>): seq<Item> {
    if texts == [] then rest else [Operand(texts[0])] + Prepend(texts[1..], rest)
  }

  /** The tail as it is rewritten: operands, then the help flag, then the options with their values. */
  function Reordered(tail: seq<Item>, help: string): seq<Item> {
    Prepend(Operands(tail), [Flag(help)] + Options(tail))
  }

  lemma {:induction false} HelpTakesNoValue(table: OptionTable, help: string, next: Option<string>)
    requires table.Valid() && IsHelp(help)
    ensures IsOption(help) && !IsDash(help) && !IsDoubleDash(help)
    ensures !HasSeparateValue(table, help, next) && !TakesValue(table, help)
  {
    assert |NO_COLOR| == 10;
    if help == "-h" {
      var shorts := help[1..];
      assert shorts == "h" && ['-', shorts[0]] == help;
      assert !ClusterTakesNext(table, shorts[1..]);
      assert !ClusterTakesNext(table, shorts);
    }
  }

  lemma {:induction false} OptionIsNoValue(table: OptionTable, flag: string, next: string)
    requires table.Valid() && IsOption(next) && (flag == NO_COLOR || !TakesValue(table, flag))
    ensures !HasSeparateValue(table, flag, Some(next))
  {
  }

  /** Dropping the operands between options keeps every option apart from the next. */
  lemma {:induction false} OptionsAreSettled(table: OptionTable, items: seq<Item>)
    requires table.Valid() && Settled(table, items)
    ensures Settled(table, Options(items))
  {
    if items != [] {
      OptionsAreSettled(table, items[1..]);
      var rest := Options(items[1..]);
      if !items[0].Operand? {
        assert Options(items)[1..] == rest;
        if items[0].Flag? && rest != [] {
          OptionsHeadIsOption(table, items[1..]);
          OptionIsNoValue(table, items[0].flag, ItemText(rest[0])[0]);
        }
      }
    }
  }

  lemma {:induction false} OptionsHeadIsOption(table: OptionTable, items: seq<Item>)
    requires Settled(table, items) && Options(items) != []
    ensures IsOption(ItemText(Options(items)[0])[0])
  {
    if items[0].Operand? {
      OptionsHeadIsOption(table, items[1..]);
    }
  }

  lemma {:induction false} Assoc(a: seq<string>, b: seq<string>, c: seq<string>)
    ensures a + (b + c) == a + b + c
  {
  }

  lemma {:induction false} PrependSettles(table: OptionTable, texts: seq<string>, rest: seq<Item>)
    requires Settled(table, rest) && forall i :: 0 <= i < |texts| ==> !IsOption(texts[i])
    ensures Settled(table, Prepend(texts, rest))
  {
    if texts != [] {
      PrependSettles(table, texts[1..], rest);
      assert Prepend(texts, rest)[1..] == Prepend(texts[1..], rest);
    }
  }

  lemma {:induction false} PrependReads(texts: seq<string>, rest: seq<Item>)
    ensures Text(Prepend(texts, rest)) == texts + Text(rest)
    ensures Operands(Prepend(texts, rest)) == texts + Operands(rest)
  {
    if texts == [] {
      assert texts + Text(rest) == Text(rest);
    } else {
      var more := Prepend(texts[1..], rest);
      PrependReads(texts[1..], rest);
      assert Prepend(texts, rest)[1..] == more;
      assert texts == [texts[0]] + texts[1..];
      Assoc([texts[0]], texts[1..], Text(rest));
      Assoc([texts[0]], texts[1..], Operands(rest));
    }
  }

  lemma {:induction false} HelpThenOptions(table: OptionTable, help: string, options: seq<Item>)
    requires table.Valid() && IsHelp(help) && Settled(table, options) && Operands(options) == []
    ensures var items := [Flag(help)] + options;
            Settled(table, items) && Text(items) == [help] + Text(options) && Operands(items) == []
  {
    var items := [Flag(help)] + options;
    assert items[1..] == options;
    HelpTakesNoValue(table, help, if options == [] then None else Some(ItemText(options[0])[0]));
  }

  lemma {:induction false} ReorderedReads(table: OptionTable, tail: seq<Item>, help: string)
    requires table.Valid() && IsHelp(help) && Settled(table, tail)
    ensures Settled(table, Reordered(tail, help))
    ensures Operands(Reordered(tail, help)) == Operands(tail)
    ensures Text(Reordered(tail, help)) == Operands(tail) + ([help] + Text(Options(tail)))
  {
    OptionsAreSettled(table, tail);
    OperandsOfOptions(tail);
    HelpThenOptions(table, help, Options(tail));
    OperandsAreNotOptions(table, tail);
    PrependSettles(table, Operands(tail), [Flag(help)] + Options(tail));
    PrependReads(Operands(tail), [Flag(help)] + Options(tail));
  }

  lemma {:induction false} NormalizedText(table: OptionTable, arguments: seq<string>)
    requires table.Valid() && Rewrites(table, arguments)
    ensures var help := HelpIndex(arguments);
            Normalize(table, arguments)
            == arguments[..help] + Text(Reordered(Tail(table, arguments), arguments[help]))
  {
    var help := HelpIndex(arguments);
    var tail := Tail(table, arguments);
    TailText(table, arguments);
    ReorderedReads(table, tail, arguments[help]);
    Assoc(arguments[..help], Operands(tail), [arguments[help]] + Text(Options(tail)));
    Assoc(arguments[..help] + Operands(tail), [arguments[help]], Text(Options(tail)));
  }

  lemma {:induction false} ItemsAfterPrefix(table: OptionTable, prefix: seq<string>, items: seq<Item>)
    requires Settled(table, items)
    ensures Items(table, prefix + Text(items), |prefix|) == items
  {
    ItemsOfText(table, items);
    var text := Text(items);
    assert (prefix + text)[|prefix|..] == text == text[0..];
    ItemsShift(table, prefix + text, |prefix|, text, 0);
  }

  /**
   Read again with the same option/value boundary, the rewritten tail is the operands in their order,
   the help flag, and the options in their order, each still next to its own value.
   */
  lemma {:induction false} NormalizeKeepsOrder(table: OptionTable, arguments: seq<string>)
    requires table.Valid() && Rewrites(table, arguments)
    ensures var normalized := Normalize(table, arguments);
            var help := HelpIndex(arguments);
            && help <= |normalized| && normalized[..help] == arguments[..help]
            && Items(table, normalized, help) == Reordered(Tail(table, arguments), arguments[help])
            && Operands(Items(table, normalized, help)) == Operands(Tail(table, arguments))
  {
    var help := HelpIndex(arguments);
    var tail := Tail(table, arguments);
    TailText(table, arguments);
    NormalizedText(table, arguments);
    ReorderedReads(table, tail, arguments[help]);
    ItemsAfterPrefix(table, arguments[..help], Reordered(tail, arguments[help]));
  }

  lemma {:induction false} HelpIndexIs(arguments: seq<string>, i: nat)
    requires i < |arguments| && IsHelp(arguments[i])
    requires forall j :: 0 <= j < i ==> !IsHelp(arguments[j])
    ensures HelpIndex(arguments) == i
  {
  }

  /** Rewriting twice is rewriting once. */
  lemma {:induction false} NormalizeIsIdempotent(table: OptionTable, arguments: seq<string>)
    requires table.Valid()
    ensures Normalize(table, Normalize(table, arguments)) == Normalize(table, arguments)
  {
    if Rewrites(table, arguments) {
      var help := HelpIndex(arguments);
      var tail := Tail(table, arguments);
      var operands := Operands(tail);
      var normalized := Normalize(table, arguments);
      TailText(table, arguments);
      OperandsAreNotOptions(table, tail);
      OptionsAreSettled(table, tail);
      OperandsOfOptions(tail);
      var front := arguments[..help] + operands + [arguments[help]];
      ItemsAfterPrefix(table, front, Options(tail));
      forall j | 0 <= j < help + |operands|
        ensures !IsHelp(normalized[j])
      {
        assert normalized[j] == if j < help then arguments[j] else operands[j - help];
      }
      HelpIndexIs(normalized, help + |operands|);
    }
  }

  // ----- When arguments are rewritten -----

  /** Help is moved when one or two arguments precede it and an operand follows it; else nothing changes. */
  lemma {:induction false} NormalizeIs(table: OptionTable, front: seq<string>, help: string, tail: seq<string>)
    requires help == "--help" || help == "-h"
    requires forall i :: 0 <= i < |front| ==> front[i] != "--help" && front[i] != "-h"
    ensures var items := Items(table, tail, 0);
            Normalize(table, front + [help] + tail)
            == if 1 <= |front| <= 2 && Operands(items) != []
               then front + Operands(items) + [help] + Text(Options(items))
               else front + [help] + tail
    ensures Normalize(table, front) == front
  {
    var arguments := front + [help] + tail;
    HelpIndexIs(arguments, |front|);
    ItemsOfRest(table, front + [help], tail);
    assert arguments[..|front|] == front;
  }
}

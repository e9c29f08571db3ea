/** Option-block stripping on whole texts: cutting into lines, the line automaton, joining again. */
module HelpText {
  import opened Prelude
  import opened Strings
  import opened HelpBlocks

  predicate CrlfAt(text: string, i: nat) {
    i < |text| - 1 && text[i] == '\r' && text[i + 1] == '\n'
  }

  /** A carriage return directly before a line feed. */
  ghost predicate HoldsCrlf(text: string) {
    exists i: nat :: CrlfAt(text, i)
  }

  /** Two carriage returns directly before a line feed. */
  ghost predicate HoldsCrCrLf(text: string) {
    exists i: nat :: CrlfAt(text, i + 1) && text[i] == '\r'
  }

  predicate Terminated(text: string) {
    text != "" && text[|text| - 1] == '\n'
  }

  predicate EndsInReturn(line: string) {
    line != "" && line[|line| - 1] == '\r'
  }

  function DropReturn(line: string): string {
    if EndsInReturn(line) then line[..|line| - 1] else line
  }

  /** Rust's `str::lines`: a line ends at `\n`, which takes one `\r` before it along. */
  function Lines(text: string): seq<string>
    decreases |text|
  {
    if text == "" then []
    else
      var end := IndexOf(text, '\n');
      if end == |text| then [text] else [DropReturn(text[..end])] + Lines(text[end + 1..])
  }

  /** Lines with `\n` between them, and after the last if the text is to be terminated. */
  function Unlines(lines: seq<string>, terminated: bool): string {
    if lines == [] then (if terminated then "\n" else "")
    else if |lines| == 1 then (if terminated then lines[0] + "\n" else lines[0])
    else lines[0] + "\n" + Unlines(lines[1..], terminated)
  }

  /** Joining the lines and then pushing a last `\n`, as the source does. */
  lemma {:induction false} JoinThenPush(lines: seq<string>, terminated: bool)
    ensures Join(lines, "\n") + (if terminated then "\n" else "") == Unlines(lines, terminated)
  {
    if |lines| > 1 {
      JoinThenPush(lines[1..], terminated);
    }
  }

  /** `strip_clap_help_option_blocks` as a function of the text. */
  function StripText(text: string, options: seq<string>): string {
    Unlines(StripLines(Lines(text), options), Terminated(text))
  }

  method StripHelpOptionBlocks(help: string, options: seq<string>) returns (stripped: string)
    ensures stripped == StripText(help, options)
  {
    var lines := Lines(help);
    var strippedLines: seq<string> := [];
    var isSkippingBlock := false;
    var i := 0;
    assert lines[0..] == lines;
    while i < |lines|
      invariant i <= |lines|
      invariant StripLines(lines, options) == strippedLines + StripFrom(lines[i..], options, isSkippingBlock)
    {
      var line := lines[i];
      assert lines[i..][1..] == lines[i + 1..];
      i := i + 1;
      if isSkippingBlock && !IsBoundary(line) {
        continue;
      }
      isSkippingBlock := false;
      if Names(line, options) {
        isSkippingBlock := true;
        continue;
      }
      strippedLines := strippedLines + [line];
    }
    assert lines[i..] == [] && strippedLines == StripLines(lines, options);
    JoinThenPush(strippedLines, Terminated(help));
    return Join(strippedLines, "\n") + (if Terminated(help) then "\n" else "");
  }

  // ----- Lines and texts -----

  ghost predicate NoNewlines(lines: seq<string>) {
    forall i :: 0 <= i < |lines| ==> '\n' !in lines[i]
  }

  lemma {:induction false} LinesHaveNoNewlines(text: string)
    ensures NoNewlines(Lines(text))
    decreases |text|
  {
    if text != "" && IndexOf(text, '\n') < |text| {
      LinesHaveNoNewlines(text[IndexOf(text, '\n') + 1..]);
    }
  }

  lemma {:induction false} KeptLinesHaveNoNewlines(lines: seq<string>, options: seq<string>, skipping: bool)
    requires NoNewlines(lines)
    ensures NoNewlines(StripFrom(lines, options, skipping))
  {
    if lines != [] {
      KeptLinesHaveNoNewlines(lines[1..], options, true);
      KeptLinesHaveNoNewlines(lines[1..], options, false);
    }
  }

  lemma {:induction false} CrlfInCons(line: string, rest: string, i: nat)
    requires '\n' !in line
    ensures CrlfAt(line + "\n" + rest, i)
            <==> (i == |line| - 1 && EndsInReturn(line)) || (i > |line| && CrlfAt(rest, i - |line| - 1))
  {
    var text := line + "\n" + rest;
    assert text[|line|] == '\n';
    if i < |line| - 1 {
      assert text[i + 1] == line[i + 1] && line[i + 1] in line;
    }
  }

  lemma {:induction false} CrlfOfCons(line: string, rest: string)
    requires '\n' !in line
    ensures HoldsCrlf(line + "\n" + rest) <==> EndsInReturn(line) || HoldsCrlf(rest)
  {
    hide CrlfAt;
    var text := line + "\n" + rest;
    if EndsInReturn(line) {
      CrlfInCons(line, rest, |line| - 1);
    } else if i: nat :| CrlfAt(rest, i) {
      CrlfInCons(line, rest, |line| + 1 + i);
      assert CrlfAt(text, |line| + 1 + i);
    } else if i: nat :| CrlfAt(text, i) {
      CrlfInCons(line, rest, i);
      assert false;
    }
  }

  /** A line that ends in `\r`, followed by `\n`, puts a `\r\n` into the text. */
  lemma {:induction false} FirstLineReads(line: string, rest: string)
    requires '\n' !in line && !HoldsCrlf(line + "\n" + rest)
    ensures Lines(line + "\n" + rest) == [line] + Lines(rest)
    ensures !HoldsCrlf(rest)
  {
    var text := line + "\n" + rest;
    IndexOfMark(line, '\n', rest);
    assert text == line + ['\n'] + rest;
    assert text[..|line|] == line && text[|line| + 1..] == rest;
    CrlfOfCons(line, rest);
  }

  lemma {:induction false} OneLineReads(line: string, terminated: bool)
    requires '\n' !in line && (terminated || line != "") && !HoldsCrlf(Unlines([line], terminated))
    ensures Lines(Unlines([line], terminated)) == [line]
    ensures Terminated(Unlines([line], terminated)) <==> terminated
  {
    if terminated {
      assert Unlines([line], true) == line + "\n" + "";
      FirstLineReads(line, "");
    } else {
      assert Unlines([line], false) == line;
      assert IndexOf(line, '\n') == |line|;
    }
  }

  /** Text without `\r\n` reads back as the lines it was joined from. */
  lemma {:induction false} LinesOfUnlines(lines: seq<string>, terminated: bool)
    requires lines != [] && NoNewlines(lines) && (terminated || lines[|lines| - 1] != "")
    requires !HoldsCrlf(Unlines(lines, terminated))
    ensures Lines(Unlines(lines, terminated)) == lines
    ensures Terminated(Unlines(lines, terminated)) <==> terminated
  {
    hide Lines;
    if |lines| == 1 {
      assert lines == [lines[0]];
      OneLineReads(lines[0], terminated);
    } else {
      var rest := lines[1..];
      var text := Unlines(rest, terminated);
      FirstLineReads(lines[0], text);
      assert rest[|rest| - 1] == lines[|lines| - 1];
      LinesOfUnlines(rest, terminated);
      UnlinesNotEmpty(rest, terminated);
      TerminatedByLast(lines[0] + "\n", text);
      assert lines == [lines[0]] + rest;
    }
  }

  lemma {:induction false} TerminatedByLast(front: string, last: string)
    requires last != ""
    ensures Terminated(front + last) <==> Terminated(last)
  {
  }

  lemma {:induction false} UnlinesNotEmpty(lines: seq<string>, terminated: bool)
    requires lines != [] && (terminated || lines[|lines| - 1] != "")
    ensures Unlines(lines, terminated) != ""
  {
  }

  /** An empty last line reads as the terminator of the line before. */
  lemma {:induction false} EmptyLastLine(lines: seq<string>)
    requires lines != []
    ensures Unlines(lines + [""], false) == Unlines(lines, true)
  {
    var longer := lines + [""];
    if |lines| == 1 {
      assert longer[1..] == [""];
    } else {
      EmptyLastLine(lines[1..]);
      assert longer[1..] == lines[1..] + [""];
    }
  }

  lemma {:induction false} StripNothing(lines: seq<string>, options: seq<string>)
    requires forall i :: 0 <= i < |lines| ==> !Names(lines[i], options)
    ensures StripLines(lines, options) == lines
  {
    if lines != [] {
      StripNothing(lines[1..], options);
    }
  }

  /** A lone `\n` stays. */
  lemma {:induction false} StripOfNewline(options: seq<string>)
    ensures StripText("\n", options) == "\n"
  {
    assert IndexOf("\n", '\n') == 0;
    assert "\n"[..0] == "" && "\n"[1..] == "";
    assert Lines("\n") == [""];
    assert [""][1..] == [];
    assert StripFrom([], options, true) == StripFrom([], options, false) == [];
    assert StripLines([""], options) == if Names("", options) then [] else [""];
  }

  // ----- Sizes -----

  function Size(lines: seq<string>): nat {
    if lines == [] then 0 else |lines[0]| + 1 + Size(lines[1..])
  }

  lemma {:induction false} UnlinesSize(lines: seq<string>, terminated: bool)
    ensures |Unlines(lines, terminated)| == Max(Size(lines) - 1, 0) + if terminated then 1 else 0
  {
    if |lines| > 1 {
      UnlinesSize(lines[1..], terminated);
    } else if |lines| == 1 {
      assert Size(lines[1..]) == 0;
    }
  }

  lemma {:induction false} StripShrinks(lines: seq<string>, options: seq<string>, skipping: bool)
    ensures Size(StripFrom(lines, options, skipping)) <= Size(lines)
  {
    if lines != [] {
      StripShrinks(lines[1..], options, true);
      StripShrinks(lines[1..], options, false);
      var kept := StripFrom(lines[1..], options, false);
      assert ([lines[0]] + kept)[1..] == kept;
    }
  }

  lemma {:induction false} ReturnInFirstLineOrRest(text: string)
    requires HoldsCrlf(text)
    ensures var end := IndexOf(text, '\n');
            end < |text| && (EndsInReturn(text[..end]) || HoldsCrlf(text[end + 1..]))
  {
    var end := IndexOf(text, '\n');
    if end < |text| {
      assert text == text[..end] + "\n" + text[end + 1..];
      CrlfOfCons(text[..end], text[end + 1..]);
    }
  }

  /** How `Lines` goes on after the first line feed. */
  lemma {:induction false} LinesUnfold(text: string)
    ensures var end := IndexOf(text, '\n');
            Lines(text) == if text == "" then []
                           else if end == |text| then [text]
                           else [DropReturn(text[..end])] + Lines(text[end + 1..])
  {
    hide DropReturn, IndexOf;
  }

  /** Each `\r\n` makes the lines smaller than the text. */
  lemma {:induction false} LinesSize(text: string)
    ensures Size(Lines(text))
            <= |text| + (if text == "" || Terminated(text) then 0 else 1) - (if HoldsCrlf(text) then 1 else 0)
    decreases |text|
  {
    if text != "" {
      LinesUnfold(text);
      hide Lines;
      var end := IndexOf(text, '\n');
      if HoldsCrlf(text) {
        ReturnInFirstLineOrRest(text);
      }
      if end < |text| {
        var rest := text[end + 1..];
        LinesSize(rest);
        SizeOfCons(DropReturn(text[..end]), Lines(rest));
        assert rest != "" ==> rest[|rest| - 1] == text[|text| - 1];
      } else {
        SizeOfCons(text, []);
      }
    }
  }

  lemma {:induction false} SizeOfCons(line: string, lines: seq<string>)
    ensures Size([line] + lines) == |line| + 1 + Size(lines)
  {
  }

  // ----- The whole-text laws -----

  lemma {:induction false} WithoutReturnsFixed(text: string, options: seq<string>)
    requires !HoldsCrlf(StripText(text, options))
    ensures StripText(StripText(text, options), options) == StripText(text, options)
  {
    var kept := StripLines(Lines(text), options);
    var terminated := Terminated(text);
    var once := StripText(text, options);
    LinesHaveNoNewlines(text);
    KeptLinesHaveNoNewlines(Lines(text), options, false);
    NoneNamed(Lines(text), options, false);
    if kept == [] || (kept == [""] && !terminated) {
      if terminated {
        StripOfNewline(options);
      }
    } else if terminated || kept[|kept| - 1] != "" {
      LinesOfUnlines(kept, terminated);
      StripNothing(kept, options);
    } else {
      var front := kept[..|kept| - 1];
      assert kept == front + [""];
      EmptyLastLine(front);
      LinesOfUnlines(front, true);
      StripNothing(front, options);
    }
  }

  lemma {:induction false} FixedWithoutReturns(text: string, options: seq<string>)
    ensures StripText(StripText(text, options), options) == StripText(text, options)
            <==> !HoldsCrlf(StripText(text, options))
  {
    hide Lines;
    var once := StripText(text, options);
    if HoldsCrlf(once) {
      var kept := StripLines(Lines(once), options);
      LinesSize(once);
      StripShrinks(Lines(once), options, false);
      UnlinesSize(kept, Terminated(once));
    } else {
      WithoutReturnsFixed(text, options);
    }
  }

  // ----- Which texts leave carriage returns before line feeds -----

  /** Some line that a line feed follows ends in a carriage return. */
  predicate HoldsReturn(lines: seq<string>, terminated: bool) {
    lines != []
    && ((EndsInReturn(lines[0]) && (terminated || |lines| > 1)) || HoldsReturn(lines[1..], terminated))
  }

  lemma {:induction false} ReturnsOfUnlines(lines: seq<string>, terminated: bool)
    requires NoNewlines(lines)
    ensures HoldsCrlf(Unlines(lines, terminated)) <==> HoldsReturn(lines, terminated)
  {
    if |lines| > 1 {
      ReturnsOfUnlines(lines[1..], terminated);
      CrlfOfCons(lines[0], Unlines(lines[1..], terminated));
    } else if |lines| == 1 && terminated {
      CrlfOfCons(lines[0], "");
      assert lines[0] + "\n" + "" == lines[0] + "\n";
    }
  }

  lemma {:induction false} CrCrLfOfCons(line: string, rest: string)
    requires '\n' !in line
    ensures HoldsCrCrLf(line + "\n" + rest) <==> EndsInReturn(DropReturn(line)) || HoldsCrCrLf(rest)
  {
    var text := line + "\n" + rest;
    if EndsInReturn(DropReturn(line)) {
      CrlfInCons(line, rest, |line| - 2 + 1);
      assert text[|line| - 2] == '\r';
    } else if i: nat :| CrlfAt(rest, i + 1) && rest[i] == '\r' {
      CrlfInCons(line, rest, |line| + 1 + i + 1);
      assert text[|line| + 1 + i] == '\r';
    } else if i: nat :| CrlfAt(text, i + 1) && text[i] == '\r' {
      CrlfInCons(line, rest, i + 1);
      assert false;
    }
  }

  lemma {:induction false} NoLinesNoReturn()
    ensures !HoldsReturn([], false) && !HoldsReturn([], true)
  {
  }

  lemma {:induction false} HoldsReturnOfCons(line: string, rest: seq<string>, terminated: bool)
    ensures HoldsReturn([line] + rest, terminated)
            <==> (EndsInReturn(line) && (terminated || rest != [])) || HoldsReturn(rest, terminated)
  {
    assert ([line] + rest)[1..] == rest;
  }

  /** Reading drops one carriage return before each line feed: another one stays exactly where there were two. */
  lemma {:induction false} ReturnsOfLines(text: string)
    ensures HoldsCrCrLf(text) <==> HoldsReturn(Lines(text), Terminated(text))
    decreases |text|
  {
    LinesUnfold(text);
    NoLinesNoReturn();
    hide Lines, DropReturn, EndsInReturn, HoldsReturn;
    var end := IndexOf(text, '\n');
    if text == "" {
    } else if end == |text| {
      HoldsReturnOfCons(text, [], false);
      assert [text] + [] == [text] && text[|text| - 1] != '\n';
    } else {
      var line, rest := text[..end], text[end + 1..];
      assert text == line + "\n" + rest;
      CrCrLfOfCons(line, rest);
      ReturnsOfLines(rest);
      HoldsReturnOfCons(DropReturn(line), Lines(rest), Terminated(text));
      TerminatedAfterFeed(line, rest);
    }
  }

  lemma {:induction false} TerminatedAfterFeed(line: string, rest: string)
    ensures rest == "" ==> Terminated(line + "\n" + rest) && Lines(rest) == []
    ensures rest != "" ==> (Terminated(line + "\n" + rest) <==> Terminated(rest)) && Lines(rest) != []
  {
    LinesUnfold(rest);
  }

  lemma {:induction false} StripBringsNoReturn(lines: seq<string>, options: seq<string>, skipping: bool,
                                               terminated: bool)
    requires HoldsReturn(StripFrom(lines, options, skipping), terminated)
    ensures HoldsReturn(lines, terminated)
  {
    if lines != [] {
      var rest := lines[1..];
      var kept := StripFrom(rest, options, false);
      if (skipping && !IsBoundary(lines[0])) || Names(lines[0], options) {
        StripBringsNoReturn(rest, options, true, terminated);
      } else if HoldsReturn(kept, terminated) {
        StripBringsNoReturn(rest, options, false, terminated);
      } else {
        assert ([lines[0]] + kept)[1..] == kept;
      }
    }
  }

  lemma {:induction false} StrippedHoldsReturn(text: string, options: seq<string>)
    ensures HoldsCrlf(StripText(text, options)) <==> HoldsReturn(StripLines(Lines(text), options), Terminated(text))
    ensures HoldsCrlf(StripText(text, options)) ==> HoldsCrCrLf(text)
  {
    hide Lines;
    LinesHaveNoNewlines(text);
    KeptLinesHaveNoNewlines(Lines(text), options, false);
    ReturnsOfUnlines(StripLines(Lines(text), options), Terminated(text));
    if HoldsCrlf(StripText(text, options)) {
      StripBringsNoReturn(Lines(text), options, false, Terminated(text));
      ReturnsOfLines(text);
    }
  }

  lemma {:induction false} NothingNamedHoldsReturn(text: string)
    ensures HoldsCrlf(StripText(text, [])) <==> HoldsCrCrLf(text)
  {
    hide Lines;
    StrippedHoldsReturn(text, []);
    StripNothing(Lines(text), []);
    ReturnsOfLines(text);
  }

  /** Stripping is idempotent on a text, whatever the options, exactly when it has no two returns before a line feed. */
  lemma {:induction false} StrippedIsFixedIff(text: string)
    ensures (forall options :: StripText(StripText(text, options), options) == StripText(text, options))
            <==> !HoldsCrCrLf(text)
  {
    hide StripText;
    if HoldsCrCrLf(text) {
      NothingNamedHoldsReturn(text);
      FixedWithoutReturns(text, []);
    } else {
      forall options
        ensures StripText(StripText(text, options), options) == StripText(text, options)
      {
        StrippedHoldsReturn(text, options);
        FixedWithoutReturns(text, options);
      }
    }
  }

  // ----- Two passes and one -----

  /** A blank line at the end, after other lines, goes when the options are stripped. */
  predicate TailRemoved(lines: seq<string>, options: seq<string>) {
    && |lines| >= 2
    && lines[|lines| - 1] == ""
    && StripLines(lines, options) == StripLines(lines[..|lines| - 1], options)
  }

  /** Without a final line feed, the blank line that pass `a` leaves last is removed by pass `b`. */
  predicate BlankTailRemoved(text: string, a: seq<string>, b: seq<string>) {
    !Terminated(text) && TailRemoved(StripLines(Lines(text), a), b)
  }

  lemma {:induction false} StripLast(front: seq<string>, last: string, options: seq<string>, skipping: bool)
    ensures var stripped := StripFrom(front, options, skipping);
            StripFrom(front + [last], options, skipping) == stripped
            || StripFrom(front + [last], options, skipping) == stripped + [last]
  {
    var lines := front + [last];
    if front == [] {
      assert lines[1..] == [];
    } else {
      assert lines[1..] == front[1..] + [last];
      StripLast(front[1..], last, options, true);
      StripLast(front[1..], last, options, false);
    }
  }

  /** If nothing in front of a blank line is kept, the blank line is not kept either. */
  lemma {:induction false} BlankGoesWithBlock(front: seq<string>, options: seq<string>, skipping: bool)
    requires (front != [] || skipping) && StripFrom(front, options, skipping) == []
    ensures StripFrom(front + [""], options, skipping) == []
  {
    var lines := front + [""];
    if front == [] {
      assert lines[1..] == [];
    } else {
      assert lines[1..] == front[1..] + [""];
      BlankGoesWithBlock(front[1..], options, true);
    }
  }

  lemma {:induction false} BlankTail(front: seq<string>, b: seq<string>)
    requires front != []
    ensures Unlines(StripLines(front, b), true)
            == Unlines(StripLines(front + [""], b), StripLines(front + [""], b) == StripLines(front, b))
  {
    hide Unlines;
    var stripped := StripLines(front, b);
    StripLast(front, "", b, false);
    if stripped == [] {
      BlankGoesWithBlock(front, b, false);
    } else {
      EmptyLastLine(stripped);
    }
  }

  lemma {:induction false} StripOfJoined(kept: seq<string>, terminated: bool, b: seq<string>)
    requires NoNewlines(kept) && !HoldsCrlf(Unlines(kept, terminated))
    requires kept != [] && (terminated || kept[|kept| - 1] != "")
    ensures StripText(Unlines(kept, terminated), b) == Unlines(StripLines(kept, b), terminated)
  {
    hide Lines, Unlines;
    LinesOfUnlines(kept, terminated);
  }

  lemma {:induction false} StripOfBlankTail(front: seq<string>, b: seq<string>)
    requires NoNewlines(front) && front != [] && !HoldsCrlf(Unlines(front + [""], false))
    ensures StripText(Unlines(front + [""], false), b)
            == Unlines(StripLines(front + [""], b), TailRemoved(front + [""], b))
  {
    hide Lines, Unlines;
    EmptyLastLine(front);
    StripOfJoined(front, true, b);
    BlankTail(front, b);
    assert (front + [""])[..|front|] == front;
  }

  lemma {:induction false} StripOfNothing(lines: seq<string>, terminated: bool, options: seq<string>)
    requires lines == [] || (lines == [""] && !terminated)
    ensures StripText(Unlines(lines, terminated), options) == Unlines(StripLines(lines, options), terminated)
  {
    if terminated {
      StripOfNewline(options);
    } else {
      assert lines != [] ==> lines[1..] == [];
      assert StripFrom([], options, true) == StripFrom([], options, false) == [];
    }
  }

  /** What two passes give: the lines of one pass, with a final line feed also when the blank tail is removed. */
  lemma {:induction false} TwoPasses(text: string, a: seq<string>, b: seq<string>)
    requires !HoldsCrlf(StripText(text, a))
    ensures StripText(StripText(text, a), b)
            == Unlines(StripLines(Lines(text), a + b), Terminated(text) || BlankTailRemoved(text, a, b))
  {
    hide Lines, Unlines, StripFrom;
    var kept := StripLines(Lines(text), a);
    LinesHaveNoNewlines(text);
    KeptLinesHaveNoNewlines(Lines(text), a, false);
    StripTwice(Lines(text), a, b, false, false);
    if kept == [] || (kept == [""] && !Terminated(text)) {
      StripOfNothing(kept, Terminated(text), b);
    } else if Terminated(text) || kept[|kept| - 1] != "" {
      StripOfJoined(kept, Terminated(text), b);
    } else {
      assert kept == kept[..|kept| - 1] + [""];
      StripOfBlankTail(kept[..|kept| - 1], b);
    }
  }

  lemma {:induction false} TerminatorShows(lines: seq<string>)
    ensures Unlines(lines, true) != Unlines(lines, false)
  {
    UnlinesSize(lines, true);
    UnlinesSize(lines, false);
  }

  lemma {:induction false} TwoPassesIff(text: string, a: seq<string>, b: seq<string>)
    requires !HoldsCrlf(StripText(text, a))
    ensures StripText(StripText(text, a), b) == StripText(text, a + b) <==> !BlankTailRemoved(text, a, b)
  {
    TwoPasses(text, a, b);
    TerminatorShows(StripLines(Lines(text), a + b));
  }

  /**
   On text without two returns before a line feed, stripping `a` and then `b` is stripping both at once
   exactly when the blank tail is not removed; on no other text is that so for all options.
   */
  lemma {:induction false} StripTextTwiceIff(text: string)
    ensures (forall a, b ::
               StripText(StripText(text, a), b) == StripText(text, a + b) <==> !BlankTailRemoved(text, a, b))
            <==> !HoldsCrCrLf(text)
  {
    hide StripText;
    if HoldsCrCrLf(text) {
      NothingNamedHoldsReturn(text);
      FixedWithoutReturns(text, []);
      NothingNamedKeepsTail(text);
      var none: seq<string> := [];
      assert none + none == none;
    } else {
      forall a, b
        ensures StripText(StripText(text, a), b) == StripText(text, a + b) <==> !BlankTailRemoved(text, a, b)
      {
        StrippedHoldsReturn(text, a);
        TwoPassesIff(text, a, b);
      }
    }
  }

  lemma {:induction false} NothingNamedKeepsTail(text: string)
    ensures !BlankTailRemoved(text, [], [])
  {
    hide Lines;
    var lines := Lines(text);
    StripNothing(lines, []);
    if lines != [] {
      StripNothing(lines[..|lines| - 1], []);
    }
  }

  lemma {:induction false} SameNamesSameLines(lines: seq<string>, a: seq<string>, b: seq<string>, skipping: bool)
    requires forall line :: Names(line, a) == Names(line, b)
    ensures StripFrom(lines, a, skipping) == StripFrom(lines, b, skipping)
  {
    if lines != [] {
      SameNamesSameLines(lines[1..], a, b, true);
      SameNamesSameLines(lines[1..], a, b, false);
    }
  }

  /**
   The order of two strippings does not matter on lines; on texts it matters exactly when one order
   removes the blank tail and the other does not.
   */
  lemma {:induction false} StripOrderIsFree(text: string, a: seq<string>, b: seq<string>)
    ensures StripLines(StripLines(Lines(text), a), b) == StripLines(StripLines(Lines(text), b), a)
    ensures !HoldsCrCrLf(text) ==>
              (StripText(StripText(text, a), b) == StripText(StripText(text, b), a)
               <==> (BlankTailRemoved(text, a, b) <==> BlankTailRemoved(text, b, a)))
    ensures !HoldsCrCrLf(text) && Terminated(text) ==>
              StripText(StripText(text, a), b) == StripText(StripText(text, b), a)
  {
    hide Lines, StripText, StripFrom;
    var lines := Lines(text);
    StripTwice(lines, a, b, false, false);
    StripTwice(lines, b, a, false, false);
    forall line: string
      ensures Names(line, a + b) == Names(line, b + a)
    {
      NamesUnion(line, a, b);
      NamesUnion(line, b, a);
    }
    SameNamesSameLines(lines, a + b, b + a, false);
    if !HoldsCrCrLf(text) {
      StrippedHoldsReturn(text, a);
      StrippedHoldsReturn(text, b);
      TwoPasses(text, a, b);
      TwoPasses(text, b, a);
      TerminatorShows(StripLines(lines, a + b));
    }
  }

  // ----- One option's block -----

  /** Lines as a help renderer writes them. */
  ghost predicate IsPlain(lines: seq<string>) {
    forall i :: 0 <= i < |lines| ==> '\n' !in lines[i] && !EndsInReturn(lines[i])
  }

  lemma {:induction false} PlainHoldNoReturn(lines: seq<string>, terminated: bool)
    requires IsPlain(lines)
    ensures !HoldsReturn(lines, terminated)
  {
    if lines != [] {
      PlainHoldNoReturn(lines[1..], terminated);
    }
  }

  lemma {:induction false} StripPlain(lines: seq<string>, options: seq<string>)
    requires lines != [] && IsPlain(lines)
    ensures StripText(Unlines(lines, true), options) == Unlines(StripLines(lines, options), true)
  {
    hide Lines, Unlines;
    PlainHoldNoReturn(lines, true);
    ReturnsOfUnlines(lines, true);
    StripOfJoined(lines, true, options);
  }

  /**
   From rendered help, stripping one option takes out exactly its heading and the lines under it, up
   to the next heading, when no other line contains the option.
   */
  lemma {:induction false} OptionGoesFromText(a: seq<string>, heading: string, body: seq<string>, b: seq<string>,
                                              option: string)
    requires IsPlain(a + [heading] + body + b) && Contains(heading, option)
    requires forall i :: 0 <= i < |a| ==> !Contains(a[i], option)
    requires forall i :: 0 <= i < |b| ==> !Contains(b[i], option)
    requires forall i :: 0 <= i < |body| ==> !IsHeading(body[i])
    requires b != [] ==> IsHeading(b[0])
    ensures StripText(Unlines(a + [heading] + body + b, true), [option]) == Unlines(a + b, true)
  {
    hide StripText, Unlines, IsHeading;
    StripPlain(a + [heading] + body + b, [option]);
    BlockGoes(a, heading, body, b, [option], option);
    UnnamedStay(a, [], [option]);
    UnnamedStay(b, [], [option]);
    assert a + [] == a && b + [] == b;
    assert StripLines([], [option]) == [];
    assert a + [heading] + body + [] == a + [heading] + body;
  }

  // ----- The two conditions are needed -----

  lemma {:induction false} LineOf(line: string, rest: string)
    requires '\n' !in line
    ensures Lines(line + "\n" + rest) == [DropReturn(line)] + Lines(rest)
  {
    IndexOfMark(line, '\n', rest);
    var text := line + ['\n'] + rest;
    assert line + "\n" + rest == text;
    assert text[..|line|] == line && text[|line| + 1..] == rest;
  }

  /** Two carriage returns before a line feed: one goes with each pass. */
  lemma {:induction false} ReturnsCanRemain()
    ensures exists text: string, options: seq<string> ::
              StripText(StripText(text, options), options) != StripText(text, options)
  {
    var text := "a\r\r" + "\n" + "";
    LineOf("a\r\r", "");
    assert DropReturn("a\r\r") == "a\r";
    assert Lines(text) == ["a\r"];
    StripNothing(["a\r"], []);
    var once := StripText(text, []);
    assert once == "a\r\n";
    assert once[1] == '\r' && once[2] == '\n';
    FixedWithoutReturns(text, []);
  }

  const UNTERMINATED := ["b", "", "a"]

  lemma {:induction false} UnterminatedLines()
    ensures Lines("b" + "\n" + ("" + "\n" + "a")) == UNTERMINATED
    ensures !Terminated("b" + "\n" + ("" + "\n" + "a"))
  {
    LineOf("b", "" + "\n" + "a");
    LineOf("", "a");
    assert IndexOf("a", '\n') == 1;
    TerminatedByLast("b" + "\n" + ("" + "\n"), "a");
    assert "b" + "\n" + ("" + "\n" + "a") == "b" + "\n" + ("" + "\n") + "a";
  }

  lemma {:induction false} UnterminatedStripped()
    ensures StripLines(UNTERMINATED, ["a"]) == ["b", ""]
    ensures StripLines(UNTERMINATED, ["a"] + ["b"]) == []
  {
    var lines := UNTERMINATED;
    var both := ["a"] + ["b"];
    assert lines[1..] == ["", "a"] && ["", "a"][1..] == ["a"] && ["a"][1..] == [];
    OneLetterNames("b", "a");
    OneLetterNames("", "a");
    OneLetterNames("a", "a");
    OneLetterNames("b", "b");
    NamesUnion("b", ["a"], ["b"]);
    NamesUnion("a", ["a"], ["b"]);
    assert StripFrom(["a"], ["a"], false) == StripFrom(["a"], both, true) == [];
    assert StripFrom(["", "a"], ["a"], false) == [""] && StripFrom(["", "a"], both, true) == [];
  }

  lemma {:induction false} OnlyLineStripped()
    ensures StripText("b" + "\n" + "", ["b"]) == "\n"
  {
    LineOf("b", "");
    OneLetterNames("b", "b");
    assert ["b"][1..] == [];
    assert StripLines(["b"], ["b"]) == [];
  }

  /** Without a final line feed, a blank line left last by the first pass becomes one, and the second keeps it. */
  lemma {:induction false} UnterminatedCanDiffer()
    ensures exists text: string, a: seq<string>, b: seq<string> ::
              !HoldsCrCrLf(text) && StripText(StripText(text, a), b) != StripText(text, a + b)
  {
    var text := "b" + "\n" + ("" + "\n" + "a");
    UnterminatedLines();
    UnterminatedStripped();
    EmptyLastLine(["b"]);
    assert ["b"] + [""] == ["b", ""];
    assert StripText(text, ["a"]) == "b" + "\n" + "";
    OnlyLineStripped();
    assert StripText(text, ["a"] + ["b"]) == "";
    assert forall i :: 0 <= i < |text| ==> text[i] != '\r';
  }

  lemma {:induction false} OneLetterNames(line: string, option: string)
    requires |line| <= 1 && |option| == 1
    ensures Names(line, [option]) <==> line == option
  {
    assert [option][1..] == [];
    assert !Names(line, []);
    if line != "" {
      assert line[1..] == "";
      assert !Contains("", option);
    }
  }
}

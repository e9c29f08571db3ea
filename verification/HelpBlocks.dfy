/** `strip_clap_help_option_blocks` of src/lib.rs: removes whole option blocks from rendered help text. */
module HelpBlocks {
  import opened Strings

  // ----- Lines -----

  /** `is_clap_help_block_boundary`. */
  predicate IsBoundary(line: string) {
    line != ""
    && (StartsWith(line, "  -") || StartsWith(line, "      --") || StartsWith(line, "  <") || line[0] != ' ')
  }

  /** A line that names one of the stripped options. */
  predicate Names(line: string, options: seq<string>) {
    options != [] && (Contains(line, options[0]) || Names(line, options[1..]))
  }

  /** The line automaton, from a skipping or a copying state. */
  function StripFrom(lines: seq<string>, options: seq<string>, skipping: bool): seq<string> {
    if lines == [] then []
    else if skipping && !IsBoundary(lines[0]) then StripFrom(lines[1..], options, true)
    else if Names(lines[0], options) then StripFrom(lines[1..], options, true)
    else [lines[0]] + StripFrom(lines[1..], options, false)
  }

  function StripLines(lines: seq<string>, options: seq<string>): seq<string> {
    StripFrom(lines, options, false)
  }

  // ----- Blocks: an independent reading -----

  /** How many lines at the front are not boundaries. */
  function Interior(lines: seq<string>): (n: nat)
    ensures n <= |lines|
    ensures forall i :: 0 <= i < n ==> !IsBoundary(lines[i])
    ensures n < |lines| ==> IsBoundary(lines[n])
  {
    if lines == [] || IsBoundary(lines[0]) then 0 else 1 + Interior(lines[1..])
  }

  /** The length of the block at the front: one line and the non-boundary lines after it. */
  function FirstBlock(lines: seq<string>): (n: nat)
    requires lines != []
    ensures 1 <= n <= |lines|
  {
    1 + Interior(lines[1..])
  }

  /** The lines cut into blocks: every block but the first starts at a boundary. */
  function Blocks(lines: seq<string>): seq<seq<string>>
    decreases |lines|
  {
    if lines == [] then [] else [lines[..FirstBlock(lines)]] + Blocks(lines[FirstBlock(lines)..])
  }

  /** The part of a block before the first line that names an option. */
  function KeptPrefix(block: seq<string>, options: seq<string>): seq<string> {
    if block == [] || Names(block[0], options) then [] else [block[0]] + KeptPrefix(block[1..], options)
  }

  function Concat(blocks: seq<seq<string>>): seq<string> {
    if blocks == [] then [] else blocks[0] + Concat(blocks[1..])
  }

  function KeptPrefixes(blocks: seq<seq<string>>, options: seq<string>): seq<seq<string>> {
    if blocks == [] then [] else [KeptPrefix(blocks[0], options)] + KeptPrefixes(blocks[1..], options)
  }

  lemma {:induction false} ConcatCons(block: seq<string>, blocks: seq<seq<string>>, options: seq<string>)
    ensures Concat([block] + blocks) == block + Concat(blocks)
    ensures Concat(KeptPrefixes([block] + blocks, options))
            == KeptPrefix(block, options) + Concat(KeptPrefixes(blocks, options))
  {
  }

  ghost predicate OneBoundaryEach(blocks: seq<seq<string>>) {
    forall b :: 0 <= b < |blocks| ==>
      && blocks[b] != []
      && (b > 0 ==> IsBoundary(blocks[b][0]))
      && forall i :: 0 < i < |blocks[b]| ==> !IsBoundary(blocks[b][i])
  }

  /** The cut loses nothing, and every block but the first starts at a boundary and holds no other. */
  lemma {:induction false} BlocksSplitAtBoundaries(lines: seq<string>)
    ensures Concat(Blocks(lines)) == lines
    ensures OneBoundaryEach(Blocks(lines))
    ensures lines != [] ==> Blocks(lines) != [] && Blocks(lines)[0][..1] == lines[..1]
    decreases |lines|
  {
    if lines != [] {
      var n := FirstBlock(lines);
      var rest := Blocks(lines[n..]);
      BlocksSplitAtBoundaries(lines[n..]);
      assert lines == lines[..n] + lines[n..];
      ConcatCons(lines[..n], rest, []);
      assert forall i :: 0 < i < n ==> lines[i] == lines[1..][i - 1];
      assert n < |lines| ==> lines[n] == lines[1..][n - 1];
      forall b | 0 <= b < |Blocks(lines)|
        ensures Blocks(lines)[b] != [] && (b > 0 ==> IsBoundary(Blocks(lines)[b][0]))
        ensures forall i :: 0 < i < |Blocks(lines)[b]| ==> !IsBoundary(Blocks(lines)[b][i])
      {
        if b > 0 {
          assert Blocks(lines)[b] == rest[b - 1];
          if b == 1 {
            assert rest[0][..1][0] == lines[n..][..1][0];
          }
        }
      }
    }
  }

  /** While skipping, the automaton drops the interior and goes on at the next boundary. */
  lemma {:induction false} SkipInterior(lines: seq<string>, options: seq<string>)
    ensures StripFrom(lines, options, true) == StripFrom(lines[Interior(lines)..], options, false)
  {
    if lines != [] && !IsBoundary(lines[0]) {
      SkipInterior(lines[1..], options);
      assert lines[1..][Interior(lines[1..])..] == lines[Interior(lines)..];
    } else {
      assert lines[0..] == lines;
    }
  }

  /** Over non-boundary lines the copying automaton keeps the prefix before the first named option. */
  lemma {:induction false} StripInterior(lines: seq<string>, options: seq<string>)
    ensures var n := Interior(lines);
            StripFrom(lines, options, false)
            == KeptPrefix(lines[..n], options) + StripFrom(lines[n..], options, false)
  {
    var n := Interior(lines);
    if lines == [] || IsBoundary(lines[0]) {
      assert lines[..0] == [] && lines[0..] == lines;
    } else {
      assert lines[..n][1..] == lines[1..][..n - 1];
      assert lines[n..] == lines[1..][n - 1..];
      if Names(lines[0], options) {
        SkipInterior(lines[1..], options);
      } else {
        StripInterior(lines[1..], options);
      }
    }
  }

  lemma {:induction false} StripFirstBlock(line: string, tail: seq<string>, options: seq<string>)
    ensures var n := Interior(tail);
            StripFrom([line] + tail, options, false)
            == KeptPrefix([line] + tail[..n], options) + StripFrom(tail[n..], options, false)
  {
    var n := Interior(tail);
    var front := tail[..n];
    var rest := StripFrom(tail[n..], options, false);
    assert ([line] + tail)[1..] == tail;
    assert ([line] + front)[1..] == front;
    if Names(line, options) {
      SkipInterior(tail, options);
      assert KeptPrefix([line] + front, options) == [];
    } else {
      StripInterior(tail, options);
      Regroup(line, KeptPrefix(front, options), rest);
    }
  }

  lemma {:induction false} Regroup(line: string, a: seq<string>, b: seq<string>)
    ensures [line] + (a + b) == [line] + a + b
  {
  }

  /** The automaton is "split at boundary lines, keep each block's prefix before its first named option". */
  lemma {:induction false} StripIsBlockwise(lines: seq<string>, options: seq<string>)
    ensures StripLines(lines, options) == Concat(KeptPrefixes(Blocks(lines), options))
    decreases |lines|
  {
    if lines != [] {
      var n := FirstBlock(lines);
      var tail := lines[1..];
      assert lines == [lines[0]] + tail;
      assert lines[..n] == [lines[0]] + tail[..n - 1] && lines[n..] == tail[n - 1..];
      StripFirstBlock(lines[0], tail, options);
      StripIsBlockwise(lines[n..], options);
      ConcatCons(lines[..n], Blocks(lines[n..]), options);
    }
  }

  lemma {:induction false} NamesIff(line: string, options: seq<string>)
    ensures Names(line, options) <==> exists option :: option in options && Contains(line, option)
  {
    if options != [] {
      NamesIff(line, options[1..]);
      assert options[0] in options && forall option :: option in options[1..] ==> option in options;
      assert forall option :: option in options ==> option == options[0] || option in options[1..];
    }
  }

  /** No kept line contains a stripped option. */
  lemma {:induction false} NoOptionRemains(lines: seq<string>, options: seq<string>, skipping: bool,
                                           line: string, option: string)
    requires line in StripFrom(lines, options, skipping) && option in options
    ensures !Contains(line, option)
  {
    NoneNamed(lines, options, skipping);
    NamesIff(line, options);
  }

  lemma {:induction false} NoneNamed(lines: seq<string>, options: seq<string>, skipping: bool)
    ensures forall i :: 0 <= i < |StripFrom(lines, options, skipping)| ==>
              !Names(StripFrom(lines, options, skipping)[i], options)
  {
    if lines != [] {
      NoneNamed(lines[1..], options, true);
      NoneNamed(lines[1..], options, false);
    }
  }

  lemma {:induction false} NamesUnion(line: string, a: seq<string>, b: seq<string>)
    ensures Names(line, a + b) <==> Names(line, a) || Names(line, b)
  {
    if a == [] {
      assert a + b == b;
    } else {
      assert (a + b)[1..] == a[1..] + b;
      NamesUnion(line, a[1..], b);
    }
  }

  /**
   Stripping `b` from what stripping `a` left is stripping both at once: the automaton of the second
   pass is skipping only while the joint automaton is. `sa` is the state of the first pass, `sb` that
   of the second, and the joint pass skips when either does.
   */
  lemma {:induction false} StripTwice(lines: seq<string>, a: seq<string>, b: seq<string>, sa: bool, sb: bool)
    ensures StripFrom(StripFrom(lines, a, sa), b, sb) == StripFrom(lines, a + b, sa || sb)
  {
    if lines != [] {
      var rest := lines[1..];
      NamesUnion(lines[0], a, b);
      var free := IsBoundary(lines[0]);
      if (sa && !free) || Names(lines[0], a) {
        StripTwice(rest, a, b, true, sb);
      } else {
        var kept := StripFrom(rest, a, false);
        assert StripFrom(lines, a, sa) == [lines[0]] + kept;
        assert ([lines[0]] + kept)[1..] == kept;
        StripTwice(rest, a, b, false, true);
        StripTwice(rest, a, b, false, false);
      }
    }
  }

  // ----- What goes and what stays, in terms of the lines alone -----

  /** The state of the automaton behind some lines. */
  function SkipsAfter(lines: seq<string>, options: seq<string>, skipping: bool): bool {
    if lines == [] then skipping
    else SkipsAfter(lines[1..], options, (skipping && !IsBoundary(lines[0])) || Names(lines[0], options))
  }

  lemma {:induction false} StripConcat(a: seq<string>, b: seq<string>, options: seq<string>, skipping: bool)
    ensures StripFrom(a + b, options, skipping)
            == StripFrom(a, options, skipping) + StripFrom(b, options, SkipsAfter(a, options, skipping))
  {
    if a == [] {
      assert a + b == b;
    } else {
      var skips := (skipping && !IsBoundary(a[0])) || Names(a[0], options);
      assert (a + b)[1..] == a[1..] + b;
      StripConcat(a[1..], b, options, skips);
      if !skips {
        Regroup(a[0], StripFrom(a[1..], options, false), StripFrom(b, options, SkipsAfter(a, options, skipping)));
      }
    }
  }

  lemma {:induction false} StripCons(line: string, rest: seq<string>, options: seq<string>, skipping: bool)
    ensures StripFrom([line] + rest, options, skipping)
            == if (skipping && !IsBoundary(line)) || Names(line, options) then StripFrom(rest, options, true)
               else [line] + StripFrom(rest, options, false)
  {
    assert ([line] + rest)[1..] == rest;
  }

  /** A line of option help, of a positional argument, or at the left margin. */
  ghost predicate IsHeading(line: string) {
    || (exists rest :: line == "  -" + rest || line == "      --" + rest || line == "  <" + rest)
    || (line != "" && line[0] != ' ')
  }

  lemma {:induction false} HeadingIsBoundary(line: string)
    ensures IsBoundary(line) <==> IsHeading(line)
  {
    if "  -" <= line {
      assert line == "  -" + line[3..];
    }
    if "      --" <= line {
      assert line == "      --" + line[8..];
    }
    if "  <" <= line {
      assert line == "  <" + line[3..];
    }
  }

  /** Whatever stands around it, a heading that contains no stripped option stays, and parts what it stands between. */
  lemma {:induction false} HeadingStays(a: seq<string>, line: string, b: seq<string>, options: seq<string>)
    requires IsHeading(line) && forall option :: option in options ==> !Contains(line, option)
    ensures StripLines(a + [line] + b, options) == StripLines(a, options) + [line] + StripLines(b, options)
  {
    HeadingIsBoundary(line);
    NamesIff(line, options);
    assert a + [line] + b == a + ([line] + b);
    StripConcat(a, [line] + b, options, false);
    StripCons(line, b, options, SkipsAfter(a, options, false));
  }

  /** A line that contains a stripped option goes, with every line after it that is no heading. */
  lemma {:induction false} BlockGoes(a: seq<string>, line: string, body: seq<string>, b: seq<string>,
                                     options: seq<string>, option: string)
    requires option in options && Contains(line, option)
    requires forall i :: 0 <= i < |body| ==> !IsHeading(body[i])
    ensures StripLines(a + [line] + body, options) == StripLines(a, options)
    ensures b != [] && IsHeading(b[0]) ==>
              StripLines(a + [line] + body + b, options) == StripLines(a, options) + StripLines(b, options)
  {
    NamesIff(line, options);
    var block := [line] + body;
    assert a + [line] + body == a + block && a + [line] + body + b == a + block + b;
    StripConcat(a, block, options, false);
    StripConcat(a + block, b, options, false);
    StripCons(line, body, options, SkipsAfter(a, options, false));
    BodyGoes(body, options);
    if b != [] && IsHeading(b[0]) {
      HeadingIsBoundary(b[0]);
      assert b == [b[0]] + b[1..];
      StripCons(b[0], b[1..], options, true);
      StripCons(b[0], b[1..], options, false);
    }
  }

  lemma {:induction false} BodyGoes(body: seq<string>, options: seq<string>)
    requires forall i :: 0 <= i < |body| ==> !IsHeading(body[i])
    ensures StripFrom(body, options, true) == []
  {
    if body != [] {
      HeadingIsBoundary(body[0]);
      BodyGoes(body[1..], options);
    }
  }

  /** Lines that contain no stripped option all stay when no line in front of them did. */
  lemma {:induction false} UnnamedStay(lines: seq<string>, b: seq<string>, options: seq<string>)
    requires forall i, option :: 0 <= i < |lines| && option in options ==> !Contains(lines[i], option)
    ensures StripLines(lines + b, options) == lines + StripLines(b, options)
  {
    if lines == [] {
      assert lines + b == b;
    } else {
      NamesIff(lines[0], options);
      assert lines + b == [lines[0]] + (lines[1..] + b);
      StripCons(lines[0], lines[1..] + b, options, false);
      UnnamedStay(lines[1..], b, options);
    }
  }
}

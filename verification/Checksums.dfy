/**
 The release checksum file: `update_checksums` of packaging/scripts/archives.py prints it,
 `checksums` and `require_checksums` of packaging/scripts/homebrew.py read it back.
 Directory listing and hashing are inputs; white space and line breaks are Python's.
 */
module Checksums {
  import opened Prelude
  import opened Strings

  const SUMS_NAME := "SHA256SUMS"

  /** Python's `str.isspace` for one character. */
  predicate IsPySpace(c: char) {
    var n := c as int;
    IsSpace(c) || (28 <= n <= 31)
  }

  /** The characters at which `str.splitlines` ends a line. */
  predicate IsLineBreak(c: char) {
    var n := c as int;
    (10 <= n <= 13) || (28 <= n <= 30) || n == 0x85 || n == 0x2028 || n == 0x2029
  }

  /** Python's white space adds four separators; `splitlines` ends a line at eleven characters. */
  lemma {:induction false} PySpacesAre(c: char)
    ensures IsPySpace(c) <==> IsSpace(c) || c in {'\U{1C}', '\U{1D}', '\U{1E}', '\U{1F}'}
    ensures IsLineBreak(c)
            <==> c in {'\n', '\U{0B}', '\U{0C}', '\r', '\U{1C}', '\U{1D}', '\U{1E}', '\U{85}', '\U{2028}',
                       '\U{2029}'}
  {
  }

  ghost predicate NoBreak(s: string) {
    forall i :: 0 <= i < |s| ==> !IsLineBreak(s[i])
  }

  // ----- Printing -----

  /** One entry of the sorted output directory. */
  datatype DirEntry = DirEntry(name: string, isDirectory: bool, sha256: string)

  predicate IsListed(e: DirEntry) {
    e.name != SUMS_NAME && !e.isDirectory
  }

  function Listed(listing: seq<DirEntry>): seq<DirEntry> {
    if listing == [] then []
    else if IsListed(listing[0]) then [listing[0]] + Listed(listing[1..])
    else Listed(listing[1..])
  }

  function Line(e: DirEntry): string {
    e.sha256 + "  " + e.name
  }

  function AllLines(entries: seq<DirEntry>): (lines: seq<string>)
    ensures |lines| == |entries|
    ensures forall i :: 0 <= i < |entries| ==> lines[i] == Line(entries[i])
  {
    seq(|entries|, i requires 0 <= i < |entries| => Line(entries[i]))
  }

  /** The file contents for the listed entries. */
  function SumsText(entries: seq<DirEntry>): string {
    Join(AllLines(entries), "\n") + "\n"
  }

  method UpdateChecksums(listing: seq<DirEntry>) returns (text: string)
    ensures text == SumsText(Listed(listing))
  {
    var entries: seq<string> := [];
    ghost var kept: seq<DirEntry> := [];
    var i := 0;
    assert listing[0..] == listing;
    while i < |listing|
      invariant i <= |listing|
      invariant entries == AllLines(kept)
      invariant Listed(listing) == kept + Listed(listing[i..])
    {
      assert listing[i..][1..] == listing[i + 1..];
      var archive := listing[i];
      i := i + 1;
      if archive.name == SUMS_NAME || archive.isDirectory {
        continue;
      }
      entries := entries + [archive.sha256 + "  " + archive.name];
      kept := kept + [archive];
    }
    assert listing[i..] == [] && kept == Listed(listing);
    return Join(entries, "\n") + "\n";
  }

  /** What is listed: the files but the checksum file itself, each in its place. */
  lemma {:induction false} ListedAre(a: seq<DirEntry>, b: seq<DirEntry>)
    ensures Listed(a + b) == Listed(a) + Listed(b)
    ensures forall e: DirEntry :: Listed([e]) == if e.name == "SHA256SUMS" || e.isDirectory then [] else [e]
    ensures Listed([]) == []
  {
    forall e: DirEntry
      ensures Listed([e]) == if e.name == "SHA256SUMS" || e.isDirectory then [] else [e]
    {
      assert [e][1..] == [];
    }
    if a == [] {
      assert a + b == b;
    } else {
      assert (a + b)[1..] == a[1..] + b;
      ListedAre(a[1..], b);
    }
  }

  /** Every listed file adds its digest, two blanks and its name, on a line of its own. */
  lemma {:induction false} SumsTextGrows(entries: seq<DirEntry>, e: DirEntry)
    ensures SumsText(entries + [e])
            == (if entries == [] then "" else SumsText(entries)) + e.sha256 + "  " + e.name + "\n"
  {
    var lines := AllLines(entries + [e]);
    assert lines == AllLines(entries) + [Line(e)];
    JoinSnoc(AllLines(entries), Line(e));
  }

  lemma {:induction false} JoinSnoc(lines: seq<string>, line: string)
    ensures Join(lines + [line], "\n") == (if lines == [] then "" else Join(lines, "\n") + "\n") + line
  {
    if lines == [] {
      assert lines + [line] == [line];
    } else {
      assert (lines + [line])[1..] == lines[1..] + [line];
      JoinSnoc(lines[1..], line);
    }
  }

  /** The checksum file does not list itself: regenerating it with the old one present changes nothing. */
  lemma {:induction false} SumsFileIsSkipped(before: seq<DirEntry>, sums: DirEntry, after: seq<DirEntry>)
    requires sums.name == SUMS_NAME
    ensures Listed(before + [sums] + after) == Listed(before + after)
  {
    if before == [] {
      assert ([sums] + after)[1..] == after && before + [sums] + after == [sums] + after && before + after == after;
    } else {
      assert (before + [sums] + after)[1..] == before[1..] + [sums] + after;
      assert (before + after)[1..] == before[1..] + after;
      SumsFileIsSkipped(before[1..], sums, after);
    }
  }

  // ----- Reading -----

  /** Text-mode reading: `\r\n` and `\r` become `\n`. */
  function UniversalNewlines(text: string): string {
    if text == "" then ""
    else if text[0] != '\r' then [text[0]] + UniversalNewlines(text[1..])
    else if |text| > 1 && text[1] == '\n' then UniversalNewlines(text[1..])
    else "\n" + UniversalNewlines(text[1..])
  }

  function LineLength(text: string): (n: nat)
    ensures n <= |text|
    ensures forall i :: 0 <= i < n ==> !IsLineBreak(text[i])
    ensures n < |text| ==> IsLineBreak(text[n])
  {
    if text == "" || IsLineBreak(text[0]) then 0 else 1 + LineLength(text[1..])
  }

  /** `str.splitlines`. */
  function SplitLines(text: string): (lines: seq<string>)
    ensures forall i :: 0 <= i < |lines| ==> NoBreak(lines[i])
    decreases |text|
  {
    if text == "" then []
    else
      var n := LineLength(text);
      if n == |text| then [text]
      else if text[n] == '\r' && n + 1 < |text| && text[n + 1] == '\n' then [text[..n]] + SplitLines(text[n + 2..])
      else [text[..n]] + SplitLines(text[n + 1..])
  }

  /** `line.split(maxsplit=1)`, when it gives two fields; one field is an unpacking error. */
  function SplitOnce(line: string): Option<(string, string)> {
    var text := TrimStart(line, IsPySpace);
    var n := WordLength(text, IsPySpace);
    var rest := TrimStart(text[n..], IsPySpace);
    if rest == "" then None else Some((text[..n], rest))
  }

  datatype ParseError = NotEnoughValues(line: string)

  function ParseLines(lines: seq<string>, values: map<string, string>): Result<map<string, string>, ParseError> {
    if lines == [] then Success(values)
    else if Trim(lines[0], IsPySpace) == "" then ParseLines(lines[1..], values)
    else
      match SplitOnce(lines[0])
      case None => Failure(NotEnoughValues(lines[0]))
      case Some((digest, filename)) => ParseLines(lines[1..], values[Trim(filename, IsPySpace) := digest])
  }

  /** `checksums` on the raw file contents. */
  function Parse(contents: string): Result<map<string, string>, ParseError> {
    ParseLines(SplitLines(UniversalNewlines(contents)), map[])
  }

  method ReadChecksums(contents: string) returns (result: Result<map<string, string>, ParseError>)
    ensures result == Parse(contents)
  {
    var lines := SplitLines(UniversalNewlines(contents));
    var values: map<string, string> := map[];
    var i := 0;
    assert lines[0..] == lines;
    while i < |lines|
      invariant i <= |lines|
      invariant Parse(contents) == ParseLines(lines[i..], values)
    {
      assert lines[i..][1..] == lines[i + 1..];
      var line := lines[i];
      i := i + 1;
      if Trim(line, IsPySpace) == "" {
        continue;
      }
      var fields := SplitOnce(line);
      if fields.None? {
        return Failure(NotEnoughValues(line));
      }
      values := values[Trim(fields.value.1, IsPySpace) := fields.value.0];
    }
    assert lines[i..] == [];
    return Success(values);
  }

  // ----- What the parser makes of a file that was edited by hand -----

  /** Line ends of other systems read as line feeds. */
  lemma {:induction false} CrLfIsNewline(a: string, b: string)
    ensures UniversalNewlines(a + "\r\n" + b) == UniversalNewlines(a) + "\n" + UniversalNewlines(b)
    decreases |a|
  {
    var text := a + "\r\n" + b;
    if a == "" {
      assert text[1..] == "\n" + b && ("\n" + b)[1..] == b;
    } else {
      assert text[1..] == a[1..] + "\r\n" + b && |text| > 1 && (|a| > 1 ==> text[1] == a[1]);
      CrLfIsNewline(a[1..], b);
    }
  }

  /** And so does a lone carriage return. */
  lemma {:induction false} CrIsNewline(a: string, b: string)
    requires b == "" || b[0] != '\n'
    ensures UniversalNewlines(a + "\r" + b) == UniversalNewlines(a) + "\n" + UniversalNewlines(b)
    decreases |a|
  {
    var text := a + "\r" + b;
    if a == "" {
      assert text[1..] == b;
    } else {
      assert text[1..] == a[1..] + "\r" + b && |text| > 1 && (|a| > 1 ==> text[1] == a[1]);
      CrIsNewline(a[1..], b);
    }
  }

  /** A carriage return and a line feed end one line. */
  lemma {:induction false} CrLfEndsLine(line: string, rest: string)
    requires NoBreak(line)
    ensures SplitLines(line + "\r\n" + rest) == [line] + SplitLines(rest)
  {
    var text := line + ['\r'] + ("\n" + rest);
    LineLengthIs(line, '\r', "\n" + rest);
    assert line + "\r\n" + rest == text;
    assert text[..|line|] == line && text[|line| + 2..] == rest && text[|line| + 1] == '\n';
  }

  /** So does any other line break. */
  lemma {:induction false} BreakEndsLine(line: string, c: char, rest: string)
    requires NoBreak(line) && IsLineBreak(c) && !(c == '\r' && rest != "" && rest[0] == '\n')
    ensures SplitLines(line + [c] + rest) == [line] + SplitLines(rest)
  {
    var text := line + [c] + rest;
    LineLengthIs(line, c, rest);
    assert text[..|line|] == line && text[|line| + 1..] == rest;
    assert rest != "" ==> text[|line| + 1] == rest[0];
  }

  lemma {:induction false} LineLengthIs(line: string, c: char, rest: string)
    requires NoBreak(line) && IsLineBreak(c)
    ensures LineLength(line + [c] + rest) == |line| && (line + [c] + rest)[|line|] == c
  {
    var text := line + [c] + rest;
    assert text[|line|] == c;
    assert forall i :: 0 <= i < |line| ==> text[i] == line[i];
  }

  /** A blank line changes nothing, wherever it stands. */
  lemma {:induction false} BlankLineIsSkipped(blank: string, rest: seq<string>, values: map<string, string>)
    requires AllSpace(blank, IsPySpace)
    ensures ParseLines([blank] + rest, values) == ParseLines(rest, values)
  {
    assert blank + "" == blank && ([blank] + rest)[1..] == rest;
    TrimStartOfPadded(blank, "", IsPySpace);
  }

  /** A line of one field fails, whatever follows it. */
  lemma {:induction false} OneFieldFails(before: string, field: string, after: string, rest: seq<string>,
                                         values: map<string, string>)
    requires AllSpace(before, IsPySpace) && IsDigest(field) && AllSpace(after, IsPySpace)
    ensures ParseLines([before + field + after] + rest, values) == Failure(NotEnoughValues(before + field + after))
  {
    var line := before + field + after;
    TrimOfPadded(before, field, after, IsPySpace);
    assert before + (field + after) == line;
    TrimStartOfPadded(before, field + after, IsPySpace);
    WordEnds(field, after);
    assert after + "" == after;
    TrimStartOfPadded(after, "", IsPySpace);
  }

  /** A line of two fields maps the second, without white space around it, to the first; the last such line wins. */
  lemma {:induction false} TwoFieldsAreTaken(before: string, digest: string, gap: string, name: string, after: string,
                                             rest: seq<string>, values: map<string, string>)
    requires AllSpace(before, IsPySpace) && AllSpace(gap, IsPySpace) && AllSpace(after, IsPySpace) && gap != ""
    requires IsDigest(digest) && name != "" && Trimmed(name, IsPySpace)
    ensures ParseLines([before + digest + gap + name + after] + rest, values)
            == ParseLines(rest, values[name := digest])
  {
    var line := before + digest + gap + name + after;
    var tail := gap + (name + after);
    assert line == before + (digest + tail);
    TrimStartOfPadded(before, digest + tail, IsPySpace);
    WordEnds(digest, tail);
    TrimStartOfPadded(gap, name + after, IsPySpace);
    assert "" + name + after == name + after;
    TrimOfPadded("", name, after, IsPySpace);
    NotBlank(before, digest + tail);
    assert ([line] + rest)[1..] == rest;
  }

  lemma {:induction false} WordEnds(word: string, tail: string)
    requires IsDigest(word) && (tail != "" ==> IsPySpace(tail[0]))
    ensures WordLength(word + tail, IsPySpace) == |word|
    ensures (word + tail)[..|word|] == word && (word + tail)[|word|..] == tail && (word + tail)[0] == word[0]
  {
    var text := word + tail;
    assert forall i :: 0 <= i < |word| ==> text[i] == word[i];
    assert tail != "" ==> text[|word|] == tail[0];
  }

  lemma {:induction false} SpaceSum(a: string, b: string)
    requires AllSpace(a, IsPySpace) && AllSpace(b, IsPySpace)
    ensures AllSpace(a + "" + b, IsPySpace)
  {
  }

  lemma {:induction false} HoldsNonSpace(text: string, i: nat)
    requires i < |text| && !IsPySpace(text[i])
    ensures !AllSpace(text, IsPySpace)
  {
  }

  lemma {:induction false} NotBlank(before: string, text: string)
    requires text != "" && !IsPySpace(text[0])
    ensures Trim(before + text, IsPySpace) != ""
  {
    var a, b := TrimSplits(before + text, IsPySpace);
    if Trim(before + text, IsPySpace) == "" {
      SpaceSum(a, b);
      HoldsNonSpace(before + text, |before|);
      assert false;
    }
  }

  // ----- Round trip -----

  /** A file name that survives the file format. */
  ghost predicate IsPlainName(name: string) {
    name != "" && Trimmed(name, IsPySpace) && NoBreak(name)
  }

  /** What a digest is: one word. */
  ghost predicate IsDigest(digest: string) {
    digest != "" && NoSpace(digest, IsPySpace)
  }

  /** The name-to-digest map of the listed entries. */
  function SumsMap(entries: seq<DirEntry>): map<string, string> {
    if entries == [] then map[] else map[entries[0].name := entries[0].sha256] + SumsMap(entries[1..])
  }

  lemma {:induction false} NoReturnsUnchanged(text: string)
    requires '\r' !in text
    ensures UniversalNewlines(text) == text
  {
    if text != "" {
      NoReturnsUnchanged(text[1..]);
    }
  }

  lemma {:induction false} FirstLine(line: string, rest: string)
    requires NoBreak(line)
    ensures SplitLines(line + "\n" + rest) == [line] + SplitLines(rest)
  {
    var text := line + "\n" + rest;
    assert forall i :: 0 <= i < |line| ==> text[i] == line[i];
    assert text[|line|] == '\n';
    assert LineLength(text) == |line|;
    assert text[..|line|] == line && text[|line| + 1..] == rest;
  }

  lemma {:induction false} LinesReadBack(lines: seq<string>)
    requires lines != [] && forall i :: 0 <= i < |lines| ==> NoBreak(lines[i])
    ensures '\r' !in Join(lines, "\n") + "\n"
    ensures SplitLines(Join(lines, "\n") + "\n") == lines
  {
    assert !NoBreak("\r") by {
      assert IsLineBreak("\r"[0]);
    }
    if |lines| == 1 {
      assert lines[0] + "\n" == lines[0] + "\n" + "";
      FirstLine(lines[0], "");
      assert lines == [lines[0]] + [];
    } else {
      var rest := Join(lines[1..], "\n") + "\n";
      LinesReadBack(lines[1..]);
      assert Join(lines, "\n") + "\n" == lines[0] + "\n" + rest;
      FirstLine(lines[0], rest);
      assert lines == [lines[0]] + lines[1..];
    }
  }

  lemma {:induction false} LineHasNoBreak(e: DirEntry)
    requires NoBreak(e.name) && IsDigest(e.sha256)
    ensures NoBreak(Line(e))
  {
  }

  lemma {:induction false} SplitsAt(digest: string, name: string)
    requires IsDigest(digest) && name != "" && !IsPySpace(name[0])
    ensures SplitOnce(digest + "  " + name) == Some((digest, name))
  {
    var line := digest + ("  " + name);
    assert digest + "  " + name == line;
    assert "" + line == line;
    assert line[0] == digest[0];
    TrimStartOfPadded("", line, IsPySpace);
    assert forall i :: 0 <= i < |digest| ==> line[i] == digest[i];
    assert line[|digest|] == ' ';
    assert WordLength(line, IsPySpace) == |digest|;
    assert line[..|digest|] == digest && line[|digest|..] == "  " + name;
    TrimStartOfPadded("  ", name, IsPySpace);
  }

  lemma {:induction false} LineIsRead(e: DirEntry)
    requires IsPlainName(e.name) && IsDigest(e.sha256)
    ensures NoBreak(Line(e)) && Trim(Line(e), IsPySpace) != ""
    ensures SplitOnce(Line(e)) == Some((e.sha256, e.name)) && Trim(e.name, IsPySpace) == e.name
  {
    LineHasNoBreak(e);
    SplitsAt(e.sha256, e.name);
    assert "" + e.name + "" == e.name;
    TrimOfPadded("", e.name, "", IsPySpace);
    assert Line(e)[0] == e.sha256[0];
    TrimKeepsText(Line(e), IsPySpace);
  }

  lemma {:induction false} UpdateThenAdd(m: map<string, string>, name: string, digest: string,
                                         rest: map<string, string>)
    ensures m[name := digest] + rest == m + (map[name := digest] + rest)
  {
  }

  lemma {:induction false} ParsesPrinted(entries: seq<DirEntry>, values: map<string, string>)
    requires forall i :: 0 <= i < |entries| ==> IsPlainName(entries[i].name) && IsDigest(entries[i].sha256)
    ensures ParseLines(AllLines(entries), values) == Success(values + SumsMap(entries))
  {
    hide Trim, SplitOnce, Line;
    var lines := AllLines(entries);
    if entries == [] {
      assert values + map[] == values;
    } else {
      LineIsRead(entries[0]);
      assert lines[0] == Line(entries[0]) && lines[1..] == AllLines(entries[1..]);
      var values' := values[entries[0].name := entries[0].sha256];
      ParsesPrinted(entries[1..], values');
      UpdateThenAdd(values, entries[0].name, entries[0].sha256, SumsMap(entries[1..]));
    }
  }

  /** Every name that the parser returns is plain, whatever the file holds. */
  lemma {:induction false} ParsedNamesArePlain(lines: seq<string>, values: map<string, string>)
    requires forall i :: 0 <= i < |lines| ==> NoBreak(lines[i])
    requires forall name :: name in values ==> IsPlainName(name)
    requires ParseLines(lines, values).Success?
    ensures forall name :: name in ParseLines(lines, values).value ==> IsPlainName(name)
  {
    if lines != [] {
      if Trim(lines[0], IsPySpace) == "" {
        ParsedNamesArePlain(lines[1..], values);
      } else {
        var (digest, filename) := SplitOnce(lines[0]).value;
        FilenameIsPlain(lines[0]);
        ParsedNamesArePlain(lines[1..], values[Trim(filename, IsPySpace) := digest]);
      }
    }
  }

  lemma {:induction false} PieceHasNoBreak(before: string, piece: string, after: string)
    requires NoBreak(before + piece + after)
    ensures NoBreak(piece)
  {
    assert forall i :: 0 <= i < |piece| ==> piece[i] == (before + piece + after)[|before| + i];
  }

  lemma {:induction false} TrimmedIsPlain(filename: string)
    requires NoBreak(filename) && filename != "" && !IsPySpace(filename[0])
    ensures IsPlainName(Trim(filename, IsPySpace))
  {
    var before, after := TrimSplits(filename, IsPySpace);
    var name := Trim(filename, IsPySpace);
    PieceHasNoBreak(before, name, after);
    TrimKeepsText(filename, IsPySpace);
  }

  lemma {:induction false} TrimStartHasNoBreak(s: string)
    requires NoBreak(s)
    ensures NoBreak(TrimStart(s, IsPySpace))
  {
    if s != "" {
      TrimStartHasNoBreak(s[1..]);
    }
  }

  lemma {:induction false} FilenameIsPlain(line: string)
    requires NoBreak(line) && SplitOnce(line).Some?
    ensures IsPlainName(Trim(SplitOnce(line).value.1, IsPySpace))
  {
    var text := TrimStart(line, IsPySpace);
    var n := WordLength(text, IsPySpace);
    TrimStartHasNoBreak(line);
    TrimStartHasNoBreak(text[n..]);
    TrimmedIsPlain(TrimStart(text[n..], IsPySpace));
  }

  lemma {:induction false} NamesOfMap(entries: seq<DirEntry>, i: nat)
    requires i < |entries|
    ensures entries[i].name in SumsMap(entries)
  {
    if i > 0 {
      NamesOfMap(entries[1..], i - 1);
    }
  }

  /**
   Reading the printed file gives back exactly the printed names and digests if and only if every name
   is non-empty, has no white space at its edges and no line break; also for an empty list.
   */
  lemma {:induction false} RoundTripIff(entries: seq<DirEntry>)
    requires forall i :: 0 <= i < |entries| ==> IsDigest(entries[i].sha256)
    ensures Parse(SumsText(entries)) == Success(SumsMap(entries))
            <==> forall i :: 0 <= i < |entries| ==> IsPlainName(entries[i].name)
  {
    if forall i :: 0 <= i < |entries| ==> IsPlainName(entries[i].name) {
      if entries == [] {
        assert SumsText(entries) == "" + "\n" + "";
        FirstLine("", "");
        NoReturnsUnchanged("" + "\n" + "");
        assert Trim("", IsPySpace) == "";
        assert SplitLines("") == [] && [""][1..] == [];
      } else {
        var lines := AllLines(entries);
        forall i | 0 <= i < |lines|
          ensures NoBreak(lines[i])
        {
          LineIsRead(entries[i]);
        }
        LinesReadBack(lines);
        NoReturnsUnchanged(SumsText(entries));
        ParsesPrinted(entries, map[]);
        assert map[] + SumsMap(entries) == SumsMap(entries);
      }
    }
    if Parse(SumsText(entries)) == Success(SumsMap(entries)) {
      ParsedNamesArePlain(SplitLines(UniversalNewlines(SumsText(entries))), map[]);
      forall i | 0 <= i < |entries|
        ensures IsPlainName(entries[i].name)
      {
        NamesOfMap(entries, i);
      }
    }
  }

  // ----- Looking releases up -----

  /** `require_checksums`: the digest of every wanted archive, or the archives that are missing. */
  function RequireChecksums(sums: map<string, string>, archives: map<string, string>)
    : Result<map<string, string>, set<string>>
  {
    var missing := set key | key in archives && archives[key] !in sums :: archives[key];
    if missing != {} then Failure(missing)
    else Success(map key | key in archives && archives[key] in sums :: sums[archives[key]])
  }

  lemma {:induction false} DigestOf(entries: seq<DirEntry>, i: nat)
    requires i < |entries| && forall j :: i < j < |entries| ==> entries[j].name != entries[i].name
    ensures entries[i].name in SumsMap(entries) && SumsMap(entries)[entries[i].name] == entries[i].sha256
  {
    if i > 0 {
      assert entries[1..][i - 1] == entries[i];
      DigestOf(entries[1..], i - 1);
    } else {
      NotNamed(entries[1..], entries[0].name);
    }
  }

  lemma {:induction false} NotNamed(entries: seq<DirEntry>, name: string)
    requires forall j :: 0 <= j < |entries| ==> entries[j].name != name
    ensures name !in SumsMap(entries)
  {
    if entries != [] {
      NotNamed(entries[1..], name);
    }
  }

  /**
   Through the file: a wanted archive gets the digest it was printed with, and the lookup fails exactly
   when some wanted archive was not printed.
   */
  lemma {:induction false} ReleaseLookup(entries: seq<DirEntry>, archives: map<string, string>)
    requires forall i :: 0 <= i < |entries| ==> IsDigest(entries[i].sha256) && IsPlainName(entries[i].name)
    requires forall i, j :: 0 <= i < j < |entries| ==> entries[i].name != entries[j].name
    ensures var parsed := Parse(SumsText(entries));
            && parsed.Success?
            && (RequireChecksums(parsed.value, archives).Success?
                <==> forall key :: key in archives ==>
                       exists i :: 0 <= i < |entries| && entries[i].name == archives[key])
            && (RequireChecksums(parsed.value, archives).Success? ==>
                  forall key, i :: key in archives && 0 <= i < |entries| && entries[i].name == archives[key] ==>
                    key in RequireChecksums(parsed.value, archives).value
                    && RequireChecksums(parsed.value, archives).value[key] == entries[i].sha256)
            && (RequireChecksums(parsed.value, archives).Success? ==>
                  RequireChecksums(parsed.value, archives).value.Keys == archives.Keys)
            && (RequireChecksums(parsed.value, archives).Failure? ==>
                  forall name :: name in RequireChecksums(parsed.value, archives).error
                    <==> name in archives.Values && forall i :: 0 <= i < |entries| ==> entries[i].name != name)
  {
    RoundTripIff(entries);
    var sums := SumsMap(entries);
    forall i | 0 <= i < |entries|
      ensures entries[i].name in sums && sums[entries[i].name] == entries[i].sha256
    {
      DigestOf(entries, i);
    }
    forall name | name in sums
      ensures exists i :: 0 <= i < |entries| && entries[i].name == name
    {
      if forall i :: 0 <= i < |entries| ==> entries[i].name != name {
        NotNamed(entries, name);
        assert false;
      }
    }
    var missing := set key | key in archives && archives[key] !in sums :: archives[key];
    if missing == {} {
      forall key | key in archives
        ensures archives[key] in sums
      {
        assert archives[key] !in missing;
      }
    }
  }
}

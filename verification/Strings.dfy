/** Text operations shared by the models: characters, trimming, words, decimal numerals, substrings. */
module Strings {
  // ----- White space -----

  /** Rust's `char::is_whitespace`. */
  predicate IsSpace(c: char) {
    var n := c as int;
    (9 <= n <= 13) || n == 0x20 || n == 0x85 || n == 0xA0 || n == 0x1680 || (0x2000 <= n <= 0x200A)
    || n == 0x2028 || n == 0x2029 || n == 0x202F || n == 0x205F || n == 0x3000
  }

  /** The code points with the Unicode property White_Space. */
  lemma {:induction false} SpacesAre(c: char)
    ensures IsSpace(c)
            <==> c in {'\t', '\n', '\U{000B}', '\U{000C}', '\r', ' ', '\U{0085}', '\U{00A0}', '\U{1680}',
                       '\U{2000}', '\U{2001}', '\U{2002}', '\U{2003}', '\U{2004}', '\U{2005}', '\U{2006}',
                       '\U{2007}', '\U{2008}', '\U{2009}', '\U{200A}', '\U{2028}', '\U{2029}', '\U{202F}',
                       '\U{205F}', '\U{3000}'}
  {
  }

  function TrimStart(s: string, isSpace: char -> bool): (r: string)
    ensures |r| <= |s| && (r == "" || !isSpace(r[0]))
  {
    if s != "" && isSpace(s[0]) then TrimStart(s[1..], isSpace) else s
  }

  function TrimEnd(s: string, isSpace: char -> bool): string {
    if s != "" && isSpace(s[|s| - 1]) then TrimEnd(s[..|s| - 1], isSpace) else s
  }

  function Trim(s: string, isSpace: char -> bool): string {
    TrimEnd(TrimStart(s, isSpace), isSpace)
  }

  ghost predicate AllSpace(s: string, isSpace: char -> bool) {
    forall i :: 0 <= i < |s| ==> isSpace(s[i])
  }

  ghost predicate NoSpace(s: string, isSpace: char -> bool) {
    forall i :: 0 <= i < |s| ==> !isSpace(s[i])
  }

  /** Text that starts and ends with a character that is not white space, or is empty. */
  ghost predicate Trimmed(s: string, isSpace: char -> bool) {
    s == "" || (!isSpace(s[0]) && !isSpace(s[|s| - 1]))
  }

  lemma {:induction false} TrimStartSplits(s: string, isSpace: char -> bool) returns (pad: string)
    ensures AllSpace(pad, isSpace) && s == pad + TrimStart(s, isSpace)
  {
    if s != "" && isSpace(s[0]) {
      var rest := TrimStartSplits(s[1..], isSpace);
      pad := [s[0]] + rest;
    } else {
      pad := "";
    }
  }

  lemma {:induction false} TrimEndSplits(s: string, isSpace: char -> bool) returns (pad: string)
    ensures AllSpace(pad, isSpace) && s == TrimEnd(s, isSpace) + pad
    ensures TrimEnd(s, isSpace) == "" || !isSpace(TrimEnd(s, isSpace)[|TrimEnd(s, isSpace)| - 1])
  {
    if s != "" && isSpace(s[|s| - 1]) {
      var rest := TrimEndSplits(s[..|s| - 1], isSpace);
      pad := rest + [s[|s| - 1]];
    } else {
      pad := "";
      assert s == s + pad;
    }
  }

  /** Trimming keeps the text between two runs of white space, and what it keeps is trimmed. */
  lemma {:induction false} TrimSplits(s: string, isSpace: char -> bool) returns (before: string, after: string)
    ensures AllSpace(before, isSpace) && AllSpace(after, isSpace)
    ensures s == before + Trim(s, isSpace) + after
    ensures Trimmed(Trim(s, isSpace), isSpace)
  {
    before := TrimStartSplits(s, isSpace);
    after := TrimEndSplits(TrimStart(s, isSpace), isSpace);
    assert TrimStart(s, isSpace)[0..] == Trim(s, isSpace) + after;
  }

  lemma {:induction false} TrimStartOfPadded(before: string, s: string, isSpace: char -> bool)
    requires AllSpace(before, isSpace) && (s == "" || !isSpace(s[0]))
    ensures TrimStart(before + s, isSpace) == s
    decreases |before|
  {
    if before == "" {
      assert before + s == s;
    } else {
      assert (before + s)[1..] == before[1..] + s;
      TrimStartOfPadded(before[1..], s, isSpace);
    }
  }

  lemma {:induction false} TrimEndOfPadded(s: string, after: string, isSpace: char -> bool)
    requires AllSpace(after, isSpace) && (s == "" || !isSpace(s[|s| - 1]))
    ensures TrimEnd(s + after, isSpace) == s
    decreases |after|
  {
    if after == "" {
      assert s + after == s;
    } else {
      assert (s + after)[..|s + after| - 1] == s + after[..|after| - 1];
      TrimEndOfPadded(s, after[..|after| - 1], isSpace);
    }
  }

  /** Trimming takes away exactly the white space put around trimmed, non-empty text. */
  lemma {:induction false} TrimOfPadded(before: string, s: string, after: string, isSpace: char -> bool)
    requires AllSpace(before, isSpace) && AllSpace(after, isSpace) && Trimmed(s, isSpace) && s != ""
    ensures Trim(before + s + after, isSpace) == s
  {
    assert before + s + after == before + (s + after);
    TrimStartOfPadded(before, s + after, isSpace);
    TrimEndOfPadded(s, after, isSpace);
  }

  lemma {:induction false} TrimKeepsText(s: string, isSpace: char -> bool)
    requires s != "" && !isSpace(s[0])
    ensures Trim(s, isSpace) != ""
  {
    var before, after := TrimSplits(s, isSpace);
    assert before + "" + after == before + after;
    assert AllSpace(before + after, isSpace);
  }

  // ----- Words -----

  /** The number of characters in front of the first white space. */
  function WordLength(s: string, isSpace: char -> bool): (n: nat)
    ensures n <= |s|
    ensures forall i :: 0 <= i < n ==> !isSpace(s[i])
    ensures n < |s| ==> isSpace(s[n])
  {
    if s == "" || isSpace(s[0]) then 0 else 1 + WordLength(s[1..], isSpace)
  }

  /** `split_whitespace`: the maximal runs without white space. */
  function Words(s: string, isSpace: char -> bool): (words: seq<string>)
    ensures AreWords(words, isSpace)
    decreases |s|
  {
    var text := TrimStart(s, isSpace);
    if text == "" then []
    else [text[..WordLength(text, isSpace)]] + Words(text[WordLength(text, isSpace)..], isSpace)
  }

  ghost predicate AreWords(words: seq<string>, isSpace: char -> bool) {
    forall i :: 0 <= i < |words| ==> words[i] != "" && NoSpace(words[i], isSpace)
  }

  lemma {:induction false} WordsOfWord(word: string, rest: string, isSpace: char -> bool)
    requires word != "" && NoSpace(word, isSpace) && (rest == "" || isSpace(rest[0]))
    ensures Words(word + rest, isSpace) == [word] + Words(rest, isSpace)
  {
    var text := word + rest;
    assert text[0] == word[0];
    assert forall i :: 0 <= i < |word| ==> text[i] == word[i];
    assert rest != "" ==> text[|word|] == rest[0];
    assert WordLength(text, isSpace) == |word|;
    assert text[..|word|] == word && text[|word|..] == rest;
  }

  lemma {:induction false} WordsSkipSpace(s: string, isSpace: char -> bool)
    requires s != "" && isSpace(s[0])
    ensures Words(s, isSpace) == Words(s[1..], isSpace)
  {
  }

  /** Words joined by a blank are read back as themselves. */
  lemma {:induction false} WordsOfJoin(words: seq<string>, isSpace: char -> bool)
    requires AreWords(words, isSpace) && isSpace(' ')
    ensures Words(Join(words, " "), isSpace) == words
  {
    if words == [] {
      assert TrimStart("", isSpace) == "";
    } else if |words| == 1 {
      assert words[0] + "" == words[0];
      WordsOfWord(words[0], "", isSpace);
      assert TrimStart("", isSpace) == "";
      assert words == [words[0]];
    } else {
      var rest := Join(words[1..], " ");
      assert Join(words, " ") == words[0] + (" " + rest);
      WordsOfWord(words[0], " " + rest, isSpace);
      WordsSkipSpace(" " + rest, isSpace);
      assert (" " + rest)[1..] == rest;
      WordsOfJoin(words[1..], isSpace);
      assert words == [words[0]] + words[1..];
    }
  }

  // ----- UTF-8 -----

  /** UTF-8 length of a character. */
  function Utf8Width(c: char): (w: nat)
    ensures 1 <= w <= 4
  {
    var n := c as int;
    if n < 0x80 then 1 else if n < 0x800 then 2 else if n < 0x1_0000 then 3 else 4
  }

  /** Wider characters come later, and the widths change where UTF-8 (RFC 3629, section 3) says. */
  lemma {:induction false} WidthsGrow(c: char, d: char)
    ensures c <= d ==> Utf8Width(c) <= Utf8Width(d)
    ensures Utf8Width('\U{7F}') == 1 && Utf8Width('\U{80}') == 2 && Utf8Width('\U{7FF}') == 2
    ensures Utf8Width('\U{800}') == 3 && Utf8Width('\U{FFFF}') == 3 && Utf8Width('\U{10000}') == 4
  {
  }

  function ByteLength(s: string): (n: nat)
    ensures n >= |s|
  {
    if s == "" then 0 else Utf8Width(s[0]) + ByteLength(s[1..])
  }

  // ----- Letter case -----

  function AsciiLower(s: string): (r: string)
    ensures |r| == |s|
    ensures s != "" && s[0] == '-' ==> r[0] == '-'
  {
    if s == "" then ""
    else [if 'A' <= s[0] <= 'Z' then (s[0] as int + 32) as char else s[0]] + AsciiLower(s[1..])
  }

  /** Two characters that differ at most in being an upper or a lower case ASCII letter. */
  predicate SameLetter(c: char, d: char) {
    || c == d
    || ('A' <= c <= 'Z' && d as int == c as int + 32)
    || ('A' <= d <= 'Z' && c as int == d as int + 32)
  }

  lemma {:induction false} LowerAt(a: string, i: nat)
    requires i < |a|
    ensures AsciiLower(a)[i] as int == if 'A' <= a[i] <= 'Z' then a[i] as int + 32 else a[i] as int
  {
    if i > 0 {
      LowerAt(a[1..], i - 1);
    }
  }

  /** Lower case is comparison without regard to ASCII letter case, and leaves no upper-case letter. */
  lemma {:induction false} LowerIgnoresCase(a: string, b: string)
    ensures AsciiLower(a) == AsciiLower(b) <==> |a| == |b| && forall i :: 0 <= i < |a| ==> SameLetter(a[i], b[i])
    ensures forall i :: 0 <= i < |a| ==> SameLetter(AsciiLower(a)[i], a[i]) && !('A' <= AsciiLower(a)[i] <= 'Z')
  {
    hide AsciiLower;
    forall i | 0 <= i < |a|
      ensures AsciiLower(a)[i] as int == if 'A' <= a[i] <= 'Z' then a[i] as int + 32 else a[i] as int
    {
      LowerAt(a, i);
    }
    forall i | 0 <= i < |b|
      ensures AsciiLower(b)[i] as int == if 'A' <= b[i] <= 'Z' then b[i] as int + 32 else b[i] as int
    {
      LowerAt(b, i);
    }
    if |a| == |b| && forall i :: 0 <= i < |a| ==> SameLetter(a[i], b[i]) {
      assert forall i :: 0 <= i < |a| ==> AsciiLower(a)[i] == AsciiLower(b)[i];
    }
  }

  // ----- Decimal numerals -----

  predicate IsDigit(c: char) {
    '0' <= c <= '9'
  }

  function Digit(d: nat): (c: char)
    requires d < 10
    ensures IsDigit(c) && c as int == 48 + d
  {
    (48 + d) as char
  }

  function DigitValue(c: char): nat
    requires IsDigit(c)
  {
    c as int - '0' as int
  }

  predicate IsNumeral(s: string) {
    s != "" && forall i :: 0 <= i < |s| ==> IsDigit(s[i])
  }

  /** How Rust and Python print an unsigned integer. */
  function Decimal(n: nat): (s: string)
    ensures IsNumeral(s)
  {
    if n < 10 then [Digit(n)] else Decimal(n / 10) + [Digit(n % 10)]
  }

  /** The number that a digit string denotes. */
  function Value(s: string): nat
    requires forall i :: 0 <= i < |s| ==> IsDigit(s[i])
  {
    if s == "" then 0 else Value(s[..|s| - 1]) * 10 + DigitValue(s[|s| - 1])
  }

  /** No superfluous leading zero. */
  predicate IsCanonical(s: string) {
    |s| == 1 || (|s| > 1 && s[0] != '0')
  }

  lemma {:induction false} ValueOfDecimal(n: nat)
    ensures Value(Decimal(n)) == n && IsCanonical(Decimal(n))
    ensures n > 0 ==> Decimal(n)[0] != '0'
  {
    if n < 10 {
      assert Decimal(n)[..0] == "";
    } else {
      ValueOfDecimal(n / 10);
      assert Decimal(n)[..|Decimal(n)| - 1] == Decimal(n / 10);
    }
  }

  lemma {:induction false} DecimalOfValue(s: string)
    requires IsNumeral(s) && IsCanonical(s)
    ensures Decimal(Value(s)) == s
    ensures s[0] != '0' ==> Value(s) > 0
  {
    var front := s[..|s| - 1];
    assert s == front + [s[|s| - 1]];
    if front == "" {
      assert Value(front) == 0;
    } else {
      DecimalOfValue(front);
      assert Value(s) / 10 == Value(front);
    }
  }

  // ----- Splitting at a character -----

  /** The index of the first `c` in `s`, or `|s|`. */
  function IndexOf(s: string, c: char): (i: nat)
    ensures i <= |s|
    ensures i < |s| ==> s[i] == c
    ensures forall j :: 0 <= j < i ==> s[j] != c
  {
    if s == "" || s[0] == c then 0 else 1 + IndexOf(s[1..], c)
  }

  lemma {:induction false} IndexOfMark(before: string, c: char, after: string)
    requires c !in before
    ensures IndexOf(before + [c] + after, c) == |before|
  {
    var s := before + [c] + after;
    assert s[|before|] == c;
    assert forall j :: 0 <= j < |before| ==> s[j] == before[j];
  }

  function Join(parts: seq<string>, separator: string): string {
    if parts == [] then "" else if |parts| == 1 then parts[0] else parts[0] + separator + Join(parts[1..], separator)
  }

  // ----- Substrings -----

  predicate StartsWith(s: string, prefix: string) {
    prefix <= s
  }

  /** `sub` stands in `s` at index `i`. */
  predicate OccursAt(s: string, sub: string, i: nat) {
    i + |sub| <= |s| && s[i..i + |sub|] == sub
  }

  predicate Contains(s: string, sub: string) {
    sub <= s || (s != "" && Contains(s[1..], sub))
  }

  lemma {:induction false} OccurrenceFound(s: string, sub: string, i: nat)
    requires OccursAt(s, sub, i)
    ensures Contains(s, sub)
  {
    if i == 0 {
      assert sub == s[..|sub|];
    } else {
      assert s[1..][i - 1..i - 1 + |sub|] == s[i..i + |sub|];
      OccurrenceFound(s[1..], sub, i - 1);
    }
  }

  lemma {:induction false} FindOccurrence(s: string, sub: string) returns (i: nat)
    requires Contains(s, sub)
    ensures OccursAt(s, sub, i)
  {
    if sub <= s {
      i := 0;
    } else {
      var j := FindOccurrence(s[1..], sub);
      i := j + 1;
      assert s[1..][j..j + |sub|] == s[i..i + |sub|];
    }
  }
}

/**
 The limits of the redaction: which URLs it always removes, and texts on which it leaves the others.
 A replacement puts the mark between two pieces of text, and a URL can be put together across it.
 */
module RedactionLimits {
  import opened Prelude
  import opened Strings
  import opened ShareRedaction

  // ----- Which URLs are clear -----

  const IPV6_URL := "https://[::1]/s?pwd=x"

  lemma {:induction false} NoEndRunsIntoMark(p: nat)
    requires p < |IPV6_URL|
    ensures !Agree(IPV6_URL[p..], MARK)
  {
    hide Agree;
    var k := if p == 8 then 1 else 0;
    assert IPV6_URL[p..][k] == IPV6_URL[p + k];
    DifferAt(IPV6_URL[p..], MARK, k);
  }

  lemma {:induction false} NoEndOfMarkRunsInto(q: nat)
    requires q < |MARK|
    ensures !Agree(MARK[q..], IPV6_URL)
  {
    hide Agree;
    var k := if q == 11 then 1 else 0;
    assert MARK[q..][k] == MARK[q + k];
    DifferAt(MARK[q..], IPV6_URL, k);
  }

  /** Brackets alone do no harm: a URL with an IPv6 host is clear. */
  lemma {:induction false} BracketedHostIsClear()
    ensures Clear("https://[::1]/s?pwd=x") && LooksSecret("https://[::1]/s?pwd=x")
  {
    hide Agree;
    forall p | 0 <= p < |IPV6_URL|
      ensures !Agree(IPV6_URL[p..], MARK)
    {
      NoEndRunsIntoMark(p);
    }
    forall q | 0 <= q < |MARK|
      ensures !Agree(MARK[q..], IPV6_URL)
    {
      NoEndOfMarkRunsInto(q);
    }
    assert IPV6_URL[15] == '?' && '?' in IPV6_URL;
  }

  // ----- Exactly the clear URLs are always removed -----

  function Count(text: string, c: char): nat {
    if text == "" then 0 else (if text[0] == c then 1 else 0) + Count(text[1..], c)
  }

  lemma {:induction false} CountOfSum(a: string, b: string, c: char)
    ensures Count(a + b, c) == Count(a, c) + Count(b, c)
  {
    if a == "" {
      assert a + b == b;
    } else {
      assert (a + b)[1..] == a[1..] + b;
      CountOfSum(a[1..], b, c);
    }
  }

  lemma {:induction false} CountOfPart(text: string, part: string, c: char)
    requires Contains(text, part)
    ensures Count(part, c) <= Count(text, c)
  {
    hide Count;
    var i := FindOccurrence(text, part);
    assert text == text[..i] + part + text[i + |part|..];
    CountOfSum(text[..i] + part, text[i + |part|..], c);
    CountOfSum(text[..i], part, c);
  }

  lemma {:induction false} CountOfNone(text: string, c: char)
    requires c !in text
    ensures Count(text, c) == 0
  {
    if text != "" {
      assert text[0] in text && forall d :: d in text[1..] ==> d in text;
      CountOfNone(text[1..], c);
    }
  }

  lemma {:induction false} CountOfMember(text: string, c: char)
    requires c in text
    ensures Count(text, c) > 0
  {
    if text[0] != c {
      assert c in text[1..];
      CountOfMember(text[1..], c);
    }
  }

  lemma {:induction false} MarkBegins()
    ensures MARK != "" && MARK[0] == '['
  {
  }

  /** A URL that ends in a beginning of the mark is completed by the mark. */
  lemma {:induction false} EndsInMark(before: string, end: string)
    requires end != "" && end <= MARK
    ensures Contains(before + MARK + "", before + end)
    ensures Count(before, '[') < Count(before + end, '[')
  {
    MarkBegins();
    hide MARK, Count;
    assert before + MARK + "" == before + end + MARK[|end|..];
    CountOfSum(before, end, '[');
    assert end[0] == '[';
    CountOfMember(end, '[');
  }

  /** So is one that holds the whole mark. */
  lemma {:induction false} HoldsMark(before: string, after: string)
    ensures Contains(before + MARK + after, before + MARK + after)
    ensures Count(before, '[') + Count(after, '[') < Count(before + MARK + after, '[')
  {
    hide Count;
    CountOfSum(before + MARK, after, '[');
    CountOfSum(before, MARK, '[');
    assert MARK[0] == '[';
    CountOfMember(MARK, '[');
  }

  lemma {:induction false} RunsIntoMark(url: string, p: nat) returns (before: string, after: string)
    requires p < |url| && Agree(url[p..], MARK)
    ensures |before| < |url| && |after| < |url| && Contains(before + MARK + after, url)
    ensures Count(before, '[') + Count(after, '[') < Count(url, '[')
  {
    MarkBegins();
    CountOfNone("", '[');
    hide Contains, MARK, Count;
    var end := url[p..];
    before := url[..p];
    assert url == before + end;
    if end <= MARK {
      after := "";
      EndsInMark(before, end);
    } else {
      after := end[|MARK|..];
      assert end == MARK + after;
      Regroup(before, MARK, after);
      HoldsMark(before, after);
    }
  }

  /** So is one that begins with an end of the mark. */
  lemma {:induction false} RunsOutOfMark(url: string, q: nat) returns (after: string)
    requires q < |MARK| && MARK[q..] <= url
    ensures |after| < |url| && Contains(MARK + after, url)
    ensures Count(after, ']') < Count(url, ']')
  {
    hide Count;
    after := url[|MARK| - q..];
    assert url == MARK[q..] + after && MARK[q..][|MARK| - 1 - q] == ']';
    CountOfSum(MARK[q..], after, ']');
    CountOfMember(MARK[q..], ']');
    assert (MARK + after)[q..q + |url|] == url;
    OccurrenceFound(MARK + after, url, q);
  }

  lemma {:induction false} NotCompleted(before: string, after: string, url: string, c: char)
    requires Count(before, c) + Count(after, c) < Count(url, c)
    ensures forall text :: c !in text ==> !Contains(before + text + after, url)
  {
    hide Count;
    forall text | c !in text
      ensures !Contains(before + text + after, url)
    {
      CountOfSum(before + text, after, c);
      CountOfSum(before, text, c);
      CountOfNone(text, c);
      if Contains(before + text + after, url) {
        CountOfPart(before + text + after, url, c);
        assert false;
      }
    }
  }

  lemma {:induction false} TwoCharacters(url: string, c: char)
    requires LooksSecret(url) && Count(url, c) > 0 && c in MARK
    ensures ByteLength(url) > 1
  {
    var k := TellingCharacter(url);
    if c !in url {
      CountOfNone(url, c);
      assert false;
    }
    var j :| 0 <= j < |url| && url[j] == c;
    assert j != k;
  }

  /**
   For a secret that is not clear there are texts around the mark that complete it, and that do not
   complete it when other text without brackets stands in the mark's place.
   */
  lemma {:induction false} CompletedByMark(url: string) returns (before: string, after: string)
    requires LooksSecret(url) && !Clear(url)
    ensures |before| < |url| && |after| < |url| && ByteLength(url) > 1
    ensures Contains(before + MARK + after, url)
    ensures forall text :: '[' !in text && ']' !in text ==> !Contains(before + text + after, url)
  {
    hide Contains, LooksSecret, Agree, ByteLength, Count;
    assert MARK[0] == '[' && MARK[|MARK| - 1] == ']';
    if p :| 0 <= p < |url| && Agree(url[p..], MARK) {
      before, after := RunsIntoMark(url, p);
      NotCompleted(before, after, url, '[');
      TwoCharacters(url, '[');
    } else {
      var q :| 0 <= q < |MARK| && Agree(MARK[q..], url);
      SecretNotInMark(url, q);
      before := "";
      after := RunsOutOfMark(url, q);
      assert before + MARK + after == MARK + after;
      CountOfNone(before, ']');
      NotCompleted(before, after, url, ']');
      TwoCharacters(url, ']');
    }
  }

  lemma {:induction false} CharactersOfEnd(text: string, mark: string, q: nat, k: nat)
    requires q <= |mark| && text <= mark[q..] && k < |text|
    ensures text[k] in mark
  {
    assert text[k] == mark[q..][k] == mark[q + k];
  }

  lemma {:induction false} SecretNotInMark(url: string, q: nat)
    requires LooksSecret(url) && q < |MARK| && Agree(MARK[q..], url)
    ensures MARK[q..] <= url
  {
    var k := TellingCharacter(url);
    if url <= MARK[q..] {
      CharactersOfEnd(url, MARK, q, k);
      assert false;
    }
  }

  /** A secret of `n + 1` bytes that is unlike everything around it. */
  function Filler(n: nat): (text: string)
    ensures |text| == n + 1 && text[0] == 'a' && forall i :: 0 < i < |text| ==> text[i] == '?'
  {
    "a" + seq(n, _ => '?')
  }

  lemma {:induction false} AsciiBytes(text: string)
    requires forall i :: 0 <= i < |text| ==> text[i] == '?'
    ensures ByteLength(text) == |text|
  {
    if text != "" {
      AsciiBytes(text[1..]);
    }
  }

  lemma {:induction false} FillerIsSecret(n: nat)
    requires n > 0
    ensures LooksSecret(Filler(n)) && ByteLength(Filler(n)) == n + 1
    ensures '[' !in Filler(n) && ']' !in Filler(n) && InlineValue(Filler(n)) == None
  {
    assert Filler(n)[1] == '?';
    AsciiBytes(Filler(n)[1..]);
  }

  lemma {:induction false} Mismatch(text: string, sub: string, i: nat, k: nat)
    requires k < |sub| && (i + k < |text| ==> text[i + k] != sub[k])
    ensures !OccursAt(text, sub, i)
  {
  }

  /** The filler is found between texts that are no longer than it, and nowhere else. */
  lemma {:induction false} FillerIsReplaced(before: string, n: nat, after: string)
    requires |before| <= n && |after| <= n
    ensures Replace(before + Filler(n) + after, Filler(n)) == before + MARK + after
  {
    var filler := Filler(n);
    forall j | 0 <= j < |before|
      ensures !OccursAt(before + filler, filler, j)
    {
      Mismatch(before + filler, filler, j, |before| - j);
    }
    ReplaceUpTo(before, filler, after);
    if Contains(after, filler) {
      var i := FindOccurrence(after, filler);
    }
    ReplaceNothing(after, filler);
  }

  /** One replacement leaves no URL behind, whatever the message and the replaced secret, exactly for the clear ones. */
  lemma {:induction false} ReplaceLeavesNoneIff(url: string)
    requires LooksSecret(url)
    ensures Clear(url)
            <==> forall message: string, target: string ::
                   LooksSecret(target) && target != "" && (target == url || !Contains(message, url))
                   ==> !Contains(Replace(message, target), url)
  {
    hide Clear, Contains, Replace, LooksSecret, Filler, ByteLength;
    if Clear(url) {
      forall message: string, target: string |
        LooksSecret(target) && target != "" && (target == url || !Contains(message, url))
        ensures !Contains(Replace(message, target), url)
      {
        ReplaceLeavesNone(message, target, url);
      }
    } else {
      var before, after := CompletedByMark(url);
      var n := ByteLength(url) - 1;
      FillerIsSecret(n);
      FillerIsReplaced(before, n, after);
      assert Contains(Replace(before + Filler(n) + after, Filler(n)), url);
    }
  }

  lemma {:induction false} SecretAfter(front: string, url: string)
    requires LooksSecret(url)
    ensures LooksSecret(front + url)
  {
    var sub := if Contains(url, "://") then "://" else if '?' in url then "?" else "pwd=";
    if '?' in url {
      var k :| 0 <= k < |url| && url[k] == '?';
      assert (front + url)[|front| + k] == '?';
    } else {
      var i := FindOccurrence(url, sub);
      ShiftOccurrence(front, url, sub, |front| + i);
      OccurrenceFound(front + url, sub, |front| + i);
    }
  }

  lemma {:induction false} CollectedCons(argument: string, rest: seq<string>)
    ensures Collected([argument] + rest)
            == (if LooksSecret(argument) then [argument] else [])
               + (if InlineValue(argument).Some? && LooksSecret(InlineValue(argument).value) then
                    [InlineValue(argument).value]
                  else [])
               + Collected(rest)
  {
    assert ([argument] + rest)[1..] == rest;
  }

  lemma {:induction false} ShareIsNotCollected(rest: seq<string>)
    ensures Collected(["share"] + rest) == Collected(rest)
  {
    if LooksSecret("share") {
      var k := TellingCharacter("share");
    }
    assert InlineValue("share") == None;
    CollectedCons("share", rest);
  }

  /** A command line on which a URL is collected as an option's value, beside another secret. */
  function Beside(url: string, other: string): (arguments: seq<string>)
    ensures "share" in arguments
  {
    ["share"] + (["--url=" + url] + ([other] + []))
  }

  lemma {:induction false} CollectedBeside(url: string, other: string)
    requires LooksSecret(url) && LooksSecret(other) && InlineValue(other) == None
    ensures Collected(Beside(url, other)) == ["--url=" + url, url, other]
  {
    hide LooksSecret, InlineValue;
    ShareIsNotCollected(["--url=" + url] + ([other] + []));
    CollectedCons("--url=" + url, [other] + []);
    CollectedCons(other, []);
    SecretAfter("--url=", url);
    assert "--url=" + url == "--" + "url" + "=" + url;
    InlineValueIs("--url=" + url, url);
  }

  lemma {:induction false} BytesAfter(front: string, url: string)
    ensures ByteLength(front + url) == ByteLength(front) + ByteLength(url)
  {
    if front == "" {
      assert front + url == url;
    } else {
      assert (front + url)[1..] == front[1..] + url;
      BytesAfter(front[1..], url);
    }
  }

  /** A longer text that ends in an absent one is absent too. */
  lemma {:induction false} LongerIsAbsent(message: string, front: string, url: string)
    requires !Contains(message, url)
    ensures !Contains(message, front + url)
  {
    if Contains(message, front + url) {
      var i := FindOccurrence(message, front + url);
      assert message[i..i + |front + url|][|front|..] == url;
      OccurrenceFound(message, url, i + |front|);
    }
  }

  lemma {:induction false} OrderBeside(url: string, other: string)
    requires LooksSecret(url) && LooksSecret(other) && InlineValue(other) == None
    requires ByteLength(other) == ByteLength(url)
    ensures IsRedactionOrder(["--url=" + url, url, other], Beside(url, other))
    ensures url in Collected(Beside(url, other))
  {
    hide LooksSecret, InlineValue, Collected, Beside;
    CollectedBeside(url, other);
    BytesAfter("--url=", url);
    assert url == ["--url=" + url, url, other][1];
    SortedAreRedactionOrder(Beside(url, other), ["--url=" + url, url, other]);
  }

  /** A secret that is not clear can be left over: the last of the replacements puts it together. */
  lemma {:induction false} UnclearCanSurvive(url: string)
    returns (arguments: seq<string>, message: string, sorted: seq<string>)
    requires LooksSecret(url) && !Clear(url)
    ensures "share" in arguments && IsRedactionOrder(sorted, arguments) && url in Collected(arguments)
    ensures Contains(ReplaceAll(message, sorted), url)
  {
    hide Clear, LooksSecret, Filler, Beside, Collected, Replace, ReplaceAll, Contains, ByteLength, InlineValue;
    hide IsLongestFirst;
    var before, after := CompletedByMark(url);
    var n := ByteLength(url) - 1;
    var filler := Filler(n);
    FillerIsSecret(n);
    FillerIsReplaced(before, n, after);
    arguments, message, sorted := Beside(url, filler), before + filler + after, ["--url=" + url, url, filler];
    OrderBeside(url, filler);
    LongerIsAbsent(message, "--url=", url);
    ReplaceNothing(message, "--url=" + url);
    ReplaceNothing(message, url);
    ReplaceThree(message, "--url=" + url, url, filler);
  }

  lemma {:induction false} ReplaceThree(message: string, a: string, b: string, c: string)
    requires a != "" && b != "" && c != ""
    ensures ReplaceAll(message, [a, b, c]) == Replace(Replace(Replace(message, a), b), c)
  {
    var once := Replace(message, a);
    var twice := Replace(once, b);
    assert [a, b, c][1..] == [b, c] && [b, c][1..] == [c] && [c][1..] == [];
    assert ReplaceAll(twice, [c]) == ReplaceAll(Replace(twice, c), []);
    assert ReplaceAll(once, [b, c]) == ReplaceAll(twice, [c]);
  }

  /**
   Redaction is complete for a secret, whatever the message, the other arguments and the order of
   equally long URLs, exactly when the secret is clear.
   */
  lemma {:induction false} RedactionIsCompleteIff(url: string)
    requires LooksSecret(url)
    ensures Clear(url)
            <==> forall arguments, message, sorted ::
                   "share" in arguments && IsRedactionOrder(sorted, arguments) && url in Collected(arguments)
                   ==> !Contains(ReplaceAll(message, sorted), url)
  {
    if Clear(url) {
      forall arguments, message, sorted |
        "share" in arguments && IsRedactionOrder(sorted, arguments) && url in Collected(arguments)
        ensures !Contains(ReplaceAll(message, sorted), url)
      {
        ClearUrlsAreRemoved(arguments, message, sorted, url);
      }
    } else {
      var arguments, message, sorted := UnclearCanSurvive(url);
    }
  }

  /** A URL that ends in the mark's first character is put together by its own replacement. */
  lemma {:induction false} OwnReplacementCompletes()
    ensures Contains(Replace("??[", "?["), "?[")
  {
    var url, message := "?[", "??[";
    assert message[1..] == url && url[2..] == "";
    assert message[1] != url[1];
    ReplaceCopies(message, url);
    assert Replace(url, url) == MARK + "";
    assert Replace(message, url) == ['?'] + (MARK + "");
    assert url <= Replace(message, url);
  }

  lemma {:induction false} OneUrlCollected()
    ensures Collected(["share", "?["]) == ["?["]
  {
    var url := "?[";
    assert ["share", url] == ["share"] + ([url] + []);
    ShareIsNotCollected([url] + []);
    assert url[0] == '?' && '?' in url && InlineValue(url) == None;
    CollectedCons(url, []);
  }

  /** The shortest failure of the whole function. */
  lemma {:induction false} BracketsCanSurvive()
    ensures "share" in ["share", "?["] && "?[" in Collected(["share", "?["])
    ensures forall sorted :: IsRedactionOrder(sorted, ["share", "?["]) ==> Contains(ReplaceAll("??[", sorted), "?[")
  {
    hide Replace, Contains, Collected;
    OneUrlCollected();
    OwnReplacementCompletes();
    assert ["share", "?["][0] == "share";
    forall sorted | IsRedactionOrder(sorted, ["share", "?["])
      ensures Contains(ReplaceAll("??[", sorted), "?[")
    {
      assert |sorted| == |multiset(sorted)| == 1 && sorted[0] in multiset(sorted);
      assert sorted[1..] == [];
    }
  }
}

/** `sanitize_share_parse_error` of src/lib.rs: no share URL that was typed may reappear in an error message. */
module ShareRedaction {
  import opened Prelude
  import opened Strings

  const MARK := "[redacted share URL]"

  // ----- Collecting -----

  /** An argument or option value that may be a share URL. */
  predicate LooksSecret(text: string) {
    Contains(text, "://") || '?' in text || Contains(text, "pwd=")
  }

  /** The value of a `--name=value` argument. */
  function InlineValue(argument: string): Option<string> {
    if !StartsWith(argument, "--") then None
    else
      var flag := argument[2..];
      var equals := IndexOf(flag, '=');
      if equals == |flag| then None else Some(flag[equals + 1..])
  }

  /** A text in which `://`, `?` or `pwd=` stands. */
  ghost predicate HoldsUrlMark(text: string) {
    exists a: string, b: string :: text == a + "://" + b || text == a + "?" + b || text == a + "pwd=" + b
  }

  lemma {:induction false} MarkIsFound(a: string, mark: string, b: string)
    ensures Contains(a + mark + b, mark)
  {
    assert (a + mark + b)[|a|..|a| + |mark|] == mark;
    OccurrenceFound(a + mark + b, mark, |a|);
  }

  lemma {:induction false} MarkSplits(text: string, mark: string) returns (a: string, b: string)
    requires Contains(text, mark)
    ensures text == a + mark + b
  {
    var i := FindOccurrence(text, mark);
    a, b := text[..i], text[i + |mark|..];
  }

  lemma {:induction false} LooksSecretIff(text: string)
    ensures LooksSecret(text) <==> HoldsUrlMark(text)
  {
    hide Contains;
    if a: string, b: string :| text == a + "://" + b || text == a + "?" + b || text == a + "pwd=" + b {
      MarkIsFound(a, "://", b);
      MarkIsFound(a, "pwd=", b);
      assert text == a + "?" + b ==> text[|a|] == '?';
    }
    if Contains(text, "://") {
      var a, b := MarkSplits(text, "://");
    } else if '?' in text {
      var k :| 0 <= k < |text| && text[k] == '?';
      assert text == text[..k] + "?" + text[k + 1..];
    } else if Contains(text, "pwd=") {
      var a, b := MarkSplits(text, "pwd=");
    }
  }

  function Collected(arguments: seq<string>): seq<string> {
    if arguments == [] then []
    else
      var value := InlineValue(arguments[0]);
      (if LooksSecret(arguments[0]) then [arguments[0]] else [])
      + (if value.Some? && LooksSecret(value.value) then [value.value] else [])
      + Collected(arguments[1..])
  }

  /** An argument holds a URL: it is the URL, or an option whose inline value is. */
  ghost predicate Holds(argument: string, url: string) {
    argument == url || exists name :: '=' !in name && argument == "--" + name + "=" + url
  }

  lemma {:induction false} InlineValueIs(argument: string, url: string)
    ensures InlineValue(argument) == Some(url)
            <==> exists name :: '=' !in name && argument == "--" + name + "=" + url
  {
    if InlineValue(argument) == Some(url) {
      var flag := argument[2..];
      var name := flag[..IndexOf(flag, '=')];
      assert argument == "--" + flag && flag == name + "=" + url;
      assert argument == "--" + name + "=" + url;
    }
    if name :| '=' !in name && argument == "--" + name + "=" + url {
      IndexOfMark(name, '=', url);
      assert argument[2..] == name + ['='] + url;
      assert (name + ['='] + url)[|name| + 1..] == url;
    }
  }

  lemma {:induction false} CollectedIfSecret(arguments: seq<string>, url: string)
    ensures url in Collected(arguments)
            <==> LooksSecret(url) && exists i :: 0 <= i < |arguments| && Holds(arguments[i], url)
  {
    if arguments != [] {
      var rest := arguments[1..];
      CollectedIfSecret(rest, url);
      InlineValueIs(arguments[0], url);
      if i :| 0 <= i < |rest| && Holds(rest[i], url) {
        assert arguments[i + 1] == rest[i];
      }
      if i :| 0 <= i < |arguments| && Holds(arguments[i], url) {
        assert i > 0 ==> arguments[i] == rest[i - 1];
      }
    }
  }

  /** Exactly the arguments and inline option values in which `://`, `?` or `pwd=` stands are collected. */
  lemma {:induction false} CollectedIff(arguments: seq<string>, url: string)
    ensures url in Collected(arguments)
            <==> HoldsUrlMark(url) && exists i :: 0 <= i < |arguments| && Holds(arguments[i], url)
  {
    CollectedIfSecret(arguments, url);
    LooksSecretIff(url);
  }

  /**
   `sort_unstable_by_key(Reverse(len))`: some rearrangement, longest first. Equal lengths may come in
   any order, so every such rearrangement is considered.
   */
  ghost predicate IsLongestFirst(sorted: seq<string>, urls: seq<string>) {
    multiset(sorted) == multiset(urls) && Descending(sorted)
  }

  ghost predicate Descending(urls: seq<string>) {
    forall i, j :: 0 <= i < j < |urls| ==> ByteLength(urls[i]) >= ByteLength(urls[j])
  }

  ghost predicate NoneEmpty(urls: seq<string>) {
    forall i :: 0 <= i < |urls| ==> urls[i] != ""
  }

  /** An order in which the collected URLs may be replaced. */
  ghost predicate IsRedactionOrder(sorted: seq<string>, arguments: seq<string>) {
    IsLongestFirst(sorted, Collected(arguments)) && NoneEmpty(sorted)
  }

  // ----- Replacing -----

  /** `str::replace`: every occurrence, leftmost first, without overlaps. */
  function Replace(message: string, url: string): string
    requires url != ""
    decreases |message|
  {
    if message == "" then ""
    else if url <= message then MARK + Replace(message[|url|..], url)
    else [message[0]] + Replace(message[1..], url)
  }

  function ReplaceAll(message: string, urls: seq<string>): string
    requires NoneEmpty(urls)
    decreases |urls|
  {
    if urls == [] then message else ReplaceAll(Replace(message, urls[0]), urls[1..])
  }

  lemma {:induction false} SecretIsNotEmpty(text: string)
    requires LooksSecret(text)
    ensures text != ""
  {
  }

  lemma {:induction false} CollectedAreSecret(arguments: seq<string>)
    ensures forall i :: 0 <= i < |Collected(arguments)| ==> LooksSecret(Collected(arguments)[i])
  {
    if arguments != [] {
      CollectedAreSecret(arguments[1..]);
    }
  }

  lemma {:induction false} SortedAreRedactionOrder(arguments: seq<string>, sorted: seq<string>)
    requires IsLongestFirst(sorted, Collected(arguments))
    ensures IsRedactionOrder(sorted, arguments)
  {
    CollectedAreSecret(arguments);
    forall i | 0 <= i < |sorted|
      ensures sorted[i] != ""
    {
      assert sorted[i] in multiset(Collected(arguments));
      SecretIsNotEmpty(sorted[i]);
    }
  }

  method InsertLongestFirst(sorted: seq<string>, url: string) returns (inserted: seq<string>)
    requires Descending(sorted)
    ensures Descending(inserted) && multiset(inserted) == multiset(sorted) + multiset{url}
  {
    var i := 0;
    while i < |sorted| && ByteLength(sorted[i]) >= ByteLength(url)
      invariant i <= |sorted|
      invariant forall j :: 0 <= j < i ==> ByteLength(sorted[j]) >= ByteLength(url)
    {
      i := i + 1;
    }
    InsertKeepsOrder(sorted, i, url);
    InsertKeepsMultiset(sorted, i, url);
    return sorted[..i] + [url] + sorted[i..];
  }

  /** One way to sort; the contract promises no more than the library's unstable sort does. */
  method SortLongestFirst(urls: seq<string>) returns (sorted: seq<string>)
    ensures IsLongestFirst(sorted, urls)
  {
    sorted := [];
    for k := 0 to |urls|
      invariant IsLongestFirst(sorted, urls[..k])
    {
      assert urls[..k + 1] == urls[..k] + [urls[k]];
      sorted := InsertLongestFirst(sorted, urls[k]);
    }
    assert urls[..|urls|] == urls;
  }

  lemma {:induction false} InsertKeepsMultiset(sorted: seq<string>, i: nat, url: string)
    requires i <= |sorted|
    ensures multiset(sorted[..i] + [url] + sorted[i..]) == multiset(sorted) + multiset{url}
  {
    assert sorted == sorted[..i] + sorted[i..];
  }

  lemma {:induction false} InsertKeepsOrder(sorted: seq<string>, i: nat, url: string)
    requires Descending(sorted) && i <= |sorted|
    requires forall j :: 0 <= j < i ==> ByteLength(sorted[j]) >= ByteLength(url)
    requires i < |sorted| ==> ByteLength(sorted[i]) <= ByteLength(url)
    ensures Descending(sorted[..i] + [url] + sorted[i..])
  {
  }

  // ----- Nothing secret is left -----

  /** Two texts that start at one place agree as far as both go. */
  predicate Agree(a: string, b: string) {
    a <= b || b <= a
  }

  /** No end of the URL can run into the mark, and no end of the mark into the URL. */
  predicate Clear(url: string) {
    (forall p :: 0 <= p < |url| ==> !Agree(url[p..], MARK))
    && forall q :: 0 <= q < |MARK| ==> !Agree(MARK[q..], url)
  }

  lemma {:induction false} ClearIsNotEmpty(url: string)
    requires Clear(url)
    ensures url != ""
  {
    if url == "" {
      assert Agree(MARK[0..], url);
    }
  }

  lemma {:induction false} OccurrenceAgrees(front: string, rest: string, sub: string, i: nat)
    requires i < |front| && OccursAt(front + rest, sub, i)
    ensures Agree(front[i..], sub)
  {
    var text := front + rest;
    if i + |sub| <= |front| {
      assert text[i..i + |sub|] == front[i..][..|sub|];
    } else {
      assert text[i..i + |sub|][..|front| - i] == front[i..];
    }
  }

  /** No clear URL starts inside the mark. */
  lemma {:induction false} NotInsideMark(rest: string, url: string, i: nat)
    requires Clear(url) && i < |MARK|
    ensures !OccursAt(MARK + rest, url, i)
  {
    if OccursAt(MARK + rest, url, i) {
      OccurrenceAgrees(MARK, rest, url, i);
      assert false;
    }
  }

  /** An end of a clear URL that starts the result was copied, and no occurrence began in it. */
  lemma {:induction false} Copied(message: string, target: string, url: string, p: nat)
    requires target != "" && Clear(url) && p <= |url| && url[p..] <= Replace(message, target)
    ensures url[p..] <= message
    ensures p < |url| ==> !(target <= message)
    decreases |url| - p
  {
    if p < |url| {
      if target <= message {
        BothStart(url[p..], MARK, Replace(message, target));
        assert false;
      } else {
        assert url[p..][1..] == url[p + 1..];
        Copied(message[1..], target, url, p + 1);
        assert url[p..] == [url[p]] + url[p + 1..];
      }
    }
  }

  lemma {:induction false} BothStart(a: string, b: string, text: string)
    requires a <= text && b <= text
    ensures Agree(a, b)
  {
    if |a| <= |b| {
      assert a == text[..|a|] == text[..|b|][..|a|];
    } else {
      assert b == text[..|b|] == text[..|a|][..|b|];
    }
  }

  lemma {:induction false} SuffixLacks(s: string, start: nat, sub: string)
    requires start <= |s| && !Contains(s, sub)
    ensures !Contains(s[start..], sub)
  {
    if Contains(s[start..], sub) {
      var i := FindOccurrence(s[start..], sub);
      assert s[start..][i..i + |sub|] == s[start + i..start + i + |sub|];
      OccurrenceFound(s, sub, start + i);
    }
  }

  lemma {:induction false} ShiftOccurrence(front: string, rest: string, sub: string, i: nat)
    requires i >= |front|
    ensures OccursAt(front + rest, sub, i) <==> OccursAt(rest, sub, i - |front|)
  {
  }

  lemma {:induction false} NotCopied(message: string, target: string, url: string)
    requires target != "" && Clear(url)
    requires !(target <= message) && (target == url || !Contains(message, url))
    ensures !(url <= Replace(message, target))
  {
    if url <= Replace(message, target) {
      assert url[0..] == url;
      Copied(message, target, url, 0);
      assert false;
    }
  }

  lemma {:induction false} NoOccurrenceAt(message: string, target: string, url: string, i: nat)
    requires target != "" && Clear(url)
    requires target == url || !Contains(message, url)
    ensures !OccursAt(Replace(message, target), url, i)
    decreases |message|
  {
    hide Clear;
    ClearIsNotEmpty(url);
    if message != "" {
      if target <= message {
        var rest := Replace(message[|target|..], target);
        if i < |MARK| {
          NotInsideMark(rest, url, i);
        } else {
          if target != url {
            SuffixLacks(message, |target|, url);
          }
          NoOccurrenceAt(message[|target|..], target, url, i - |MARK|);
          ShiftOccurrence(MARK, rest, url, i);
        }
      } else if i == 0 {
        NotCopied(message, target, url);
      } else {
        if target != url {
          SuffixLacks(message, 1, url);
        }
        NoOccurrenceAt(message[1..], target, url, i - 1);
        ShiftOccurrence([message[0]], Replace(message[1..], target), url, i);
      }
    }
  }

  /** Replacing a clear URL removes it, and replacing any text brings no absent clear URL back. */
  lemma {:induction false} ReplaceLeavesNone(message: string, target: string, url: string)
    requires target != "" && Clear(url)
    requires target == url || !Contains(message, url)
    ensures !Contains(Replace(message, target), url)
  {
    if Contains(Replace(message, target), url) {
      var i := FindOccurrence(Replace(message, target), url);
      NoOccurrenceAt(message, target, url, i);
      assert false;
    }
  }

  lemma {:induction false} AbsentStaysAbsent(message: string, urls: seq<string>, url: string)
    requires NoneEmpty(urls) && Clear(url) && !Contains(message, url)
    ensures !Contains(ReplaceAll(message, urls), url)
    decreases |urls|
  {
    if urls != [] {
      ReplaceLeavesNone(message, urls[0], url);
      AbsentStaysAbsent(Replace(message, urls[0]), urls[1..], url);
    }
  }

  lemma {:induction false} ReplaceAllRemoves(message: string, urls: seq<string>, url: string)
    requires NoneEmpty(urls) && Clear(url) && url in urls
    ensures !Contains(ReplaceAll(message, urls), url)
    decreases |urls|
  {
    if urls[0] == url {
      ReplaceLeavesNone(message, url, url);
      AbsentStaysAbsent(Replace(message, url), urls[1..], url);
    } else {
      ReplaceAllRemoves(Replace(message, urls[0]), urls[1..], url);
    }
  }

  /** Whatever the message, the other arguments and the order of equally long URLs, no clear collected URL is left. */
  lemma {:induction false} ClearUrlsAreRemoved(arguments: seq<string>, message: string, sorted: seq<string>,
                                               url: string)
    requires IsRedactionOrder(sorted, arguments) && url in Collected(arguments) && Clear(url)
    ensures !Contains(ReplaceAll(message, sorted), url)
  {
    assert url in multiset(Collected(arguments));
    assert url in multiset(sorted);
    ReplaceAllRemoves(message, sorted, url);
  }

  /** A secret holds a character that the mark does not. */
  lemma {:induction false} TellingCharacter(url: string) returns (k: nat)
    requires LooksSecret(url)
    ensures k < |url| && (url[k] == ':' || url[k] == '?' || url[k] == '=')
    ensures url[k] !in MARK
  {
    if Contains(url, "://") {
      k := FindOccurrence(url, "://");
      assert url[k..k + 3][0] == ':';
    } else if '?' in url {
      k :| 0 <= k < |url| && url[k] == '?';
    } else {
      var i := FindOccurrence(url, "pwd=");
      assert url[i..i + 4][3] == '=';
      k := i + 3;
    }
  }

  lemma {:induction false} DifferAt(a: string, b: string, k: nat)
    requires k < |a| && k < |b| && a[k] != b[k]
    ensures !Agree(a, b)
  {
  }

  /** Every secret without brackets is clear. */
  lemma {:induction false} WithoutBracketsClear(url: string)
    requires LooksSecret(url) && '[' !in url && ']' !in url
    ensures Clear(url)
  {
    hide Agree;
    var k := TellingCharacter(url);
    forall p | 0 <= p < |url|
      ensures !Agree(url[p..], MARK)
    {
      assert url[p] in url;
      DifferAt(url[p..], MARK, 0);
    }
    forall q | 0 <= q < |MARK|
      ensures !Agree(MARK[q..], url)
    {
      var last := |MARK| - 1 - q;
      if last < |url| {
        assert url[last] in url;
        DifferAt(MARK[q..], url, last);
      } else {
        assert MARK[q + k] in MARK;
        DifferAt(MARK[q..], url, k);
      }
    }
  }

  /** No text that an argument holds, with a URL mark in it, is left, if it is clear or has no brackets. */
  ghost predicate NothingHeldIsLeft(arguments: seq<string>, sanitized: string) {
    forall i, url :: 0 <= i < |arguments| && Holds(arguments[i], url) && HoldsUrlMark(url)
                     && (Clear(url) || ('[' !in url && ']' !in url)) ==>
      !Contains(sanitized, url)
  }

  lemma {:induction false} HeldUrlsAreRemoved(arguments: seq<string>, message: string, sorted: seq<string>)
    requires IsRedactionOrder(sorted, arguments)
    ensures NothingHeldIsLeft(arguments, ReplaceAll(message, sorted))
  {
    hide Clear, Contains, Collected, Holds, HoldsUrlMark, LooksSecret, ReplaceAll;
    forall i, url | 0 <= i < |arguments| && Holds(arguments[i], url) && HoldsUrlMark(url)
                    && (Clear(url) || ('[' !in url && ']' !in url))
      ensures !Contains(ReplaceAll(message, sorted), url)
    {
      CollectedIff(arguments, url);
      LooksSecretIff(url);
      if '[' !in url && ']' !in url {
        WithoutBracketsClear(url);
      }
      ClearUrlsAreRemoved(arguments, message, sorted, url);
    }
  }

  method SanitizeShareParseError(arguments: seq<string>, tool: string, message: string) returns (sanitized: string)
    ensures tool != "ve-adrive" || "share" !in arguments ==> sanitized == message
    ensures tool == "ve-adrive" && "share" in arguments ==>
              exists sorted :: IsRedactionOrder(sorted, arguments) && sanitized == ReplaceAll(message, sorted)
    ensures tool == "ve-adrive" && "share" in arguments ==> NothingHeldIsLeft(arguments, sanitized)
  {
    if tool != "ve-adrive" || "share" !in arguments {
      return message;
    }
    hide NothingHeldIsLeft, Replace, Collected, IsRedactionOrder;
    var secretUrls := SortLongestFirst(Collected(arguments));
    SortedAreRedactionOrder(arguments, secretUrls);
    sanitized := message;
    assert secretUrls[0..] == secretUrls;
    for k := 0 to |secretUrls|
      invariant ReplaceAll(message, secretUrls) == ReplaceAll(sanitized, secretUrls[k..])
    {
      assert secretUrls[k..][1..] == secretUrls[k + 1..];
      sanitized := Replace(sanitized, secretUrls[k]);
    }
    HeldUrlsAreRemoved(arguments, message, secretUrls);
  }

  // ----- What a replacement is, and long URLs go whole -----

  /** Text without the URL is copied. */
  lemma {:induction false} ReplaceNothing(message: string, url: string)
    requires url != "" && !Contains(message, url)
    ensures Replace(message, url) == message
    decreases |message|
  {
    if message != "" {
      ReplaceNothing(message[1..], url);
    }
  }

  lemma {:induction false} ReplaceAllNothing(message: string, urls: seq<string>)
    requires NoneEmpty(urls) && forall i :: 0 <= i < |urls| ==> !Contains(message, urls[i])
    ensures ReplaceAll(message, urls) == message
  {
    if urls != [] {
      ReplaceNothing(message, urls[0]);
      ReplaceAllNothing(message, urls[1..]);
    }
  }

  lemma {:induction false} ReplaceCopies(message: string, url: string)
    requires url != "" && message != "" && !(url <= message)
    ensures Replace(message, url) == [message[0]] + Replace(message[1..], url)
  {
  }

  ghost predicate NoneBegins(before: string, url: string) {
    forall j :: 0 <= j < |before| ==> !OccursAt(before + url, url, j)
  }

  lemma {:induction false} NoneBeginsLater(before: string, url: string)
    requires before != "" && NoneBegins(before, url)
    ensures NoneBegins(before[1..], url)
    ensures forall after :: !(url <= before + url + after)
  {
    forall j | 0 <= j < |before[1..]|
      ensures !OccursAt(before[1..] + url, url, j)
    {
      assert !OccursAt(before + url, url, j + 1);
      assert before + url == [before[0]] + (before[1..] + url);
      ShiftOccurrence([before[0]], before[1..] + url, url, j + 1);
    }
    forall after
      ensures !(url <= before + url + after)
    {
      assert !OccursAt(before + url, url, 0);
      assert (before + url + after)[..|url|] == (before + url)[0..|url|];
    }
  }

  lemma {:induction false} Regroup(a: string, b: string, c: string)
    ensures a + (b + c) == a + b + c
    ensures a != "" ==> [a[0]] + (a[1..] + b + c) == a + b + c
  {
  }

  /** The text in front of the first occurrence is copied. */
  lemma {:induction false} ReplaceUpTo(before: string, url: string, after: string)
    requires url != "" && NoneBegins(before, url)
    ensures Replace(before + url + after, url) == before + MARK + Replace(after, url)
    decreases |before|
  {
    var message := before + url + after;
    if before == "" {
      assert message[|url|..] == after && url <= message;
    } else {
      hide Replace, NoneBegins;
      NoneBeginsLater(before, url);
      assert message[1..] == before[1..] + url + after;
      ReplaceCopies(message, url);
      ReplaceUpTo(before[1..], url, after);
      Regroup(before, MARK, Replace(after, url));
    }
  }

  /** The pieces of a text around its occurrences of the URL, each the first one that is left. */
  ghost predicate IsCut(pieces: seq<string>, url: string) {
    pieces != [] && !Contains(pieces[|pieces| - 1], url)
    && forall i :: 0 <= i < |pieces| - 1 ==> NoneBegins(pieces[i], url)
  }

  lemma {:induction false} CutTail(pieces: seq<string>, url: string)
    requires IsCut(pieces, url) && |pieces| > 1
    ensures IsCut(pieces[1..], url)
  {
    var tail := pieces[1..];
    assert forall i :: 0 <= i < |tail| ==> tail[i] == pieces[i + 1];
  }

  lemma {:induction false} CutAfterNothing(rest: seq<string>, url: string)
    requires IsCut(rest, url)
    ensures IsCut([""] + rest, url) && Join([""] + rest, url) == url + Join(rest, url)
  {
    hide Contains;
    var pieces := [""] + rest;
    assert pieces[1..] == rest && forall i :: 0 < i < |pieces| ==> pieces[i] == rest[i - 1];
    assert "" + url + Join(rest, url) == url + Join(rest, url);
  }

  /** Every text has such pieces. */
  lemma {:induction false} CutExists(message: string, url: string) returns (pieces: seq<string>)
    requires url != ""
    ensures IsCut(pieces, url) && Join(pieces, url) == message
    decreases |message|
  {
    if message == "" {
      pieces := [""];
    } else if url <= message {
      var rest := CutExists(message[|url|..], url);
      pieces := [""] + rest;
      CutAfterNothing(rest, url);
    } else {
      var rest := CutExists(message[1..], url);
      pieces := CutCons(message[0], rest, url);
    }
  }

  lemma {:induction false} CutCons(c: char, rest: seq<string>, url: string) returns (pieces: seq<string>)
    requires url != "" && IsCut(rest, url) && !(url <= [c] + Join(rest, url))
    ensures IsCut(pieces, url) && Join(pieces, url) == [c] + Join(rest, url)
  {
    var first := [c] + rest[0];
    pieces := [first] + rest[1..];
    assert pieces[1..] == rest[1..];
    if |rest| == 1 {
      assert first[1..] == rest[0];
    } else {
      assert [c] + Join(rest, url) == first + url + Join(rest[1..], url);
      forall j | 0 <= j < |first|
        ensures !OccursAt(first + url, url, j)
      {
        if j == 0 {
          assert (first + url)[0..|url|] == ([c] + Join(rest, url))[..|url|];
        } else {
          assert !OccursAt(rest[0] + url, url, j - 1);
          assert first + url == [c] + (rest[0] + url);
          ShiftOccurrence([c], rest[0] + url, url, j);
        }
      }
    }
  }

  /** A replacement puts the mark between the pieces. */
  lemma {:induction false} ReplaceIsJoin(pieces: seq<string>, url: string)
    requires url != "" && IsCut(pieces, url)
    ensures Replace(Join(pieces, url), url) == Join(pieces, MARK)
  {
    if |pieces| == 1 {
      ReplaceNothing(pieces[0], url);
    } else {
      CutTail(pieces, url);
      ReplaceIsJoin(pieces[1..], url);
      ReplaceUpTo(pieces[0], url, Join(pieces[1..], url));
    }
  }

  lemma {:induction false} ReplaceAllStep(message: string, urls: seq<string>)
    requires NoneEmpty(urls) && urls != []
    ensures ReplaceAll(message, urls) == ReplaceAll(Replace(message, urls[0]), urls[1..])
  {
  }

  /** If every other collected text in the message is shorter, the URL is the first that changes the message. */
  lemma {:induction false} LongestGoesFirst(message: string, url: string, sorted: seq<string>) returns (k: nat)
    requires Descending(sorted) && NoneEmpty(sorted) && url in sorted && url != ""
    requires forall i :: 0 <= i < |sorted| && sorted[i] != url && Contains(message, sorted[i]) ==>
               ByteLength(sorted[i]) < ByteLength(url)
    ensures k < |sorted| && sorted[k] == url
    ensures ReplaceAll(message, sorted) == ReplaceAll(Replace(message, url), sorted[k + 1..])
    decreases |sorted|
  {
    hide Contains, Replace, ReplaceAll, ByteLength;
    ReplaceAllStep(message, sorted);
    if sorted[0] == url {
      k := 0;
    } else {
      var i :| 0 <= i < |sorted| && sorted[i] == url;
      assert ByteLength(sorted[0]) >= ByteLength(sorted[i]);
      ReplaceNothing(message, sorted[0]);
      var j := LongestGoesFirst(message, url, sorted[1..]);
      k := j + 1;
      assert sorted[1..][j + 1..] == sorted[k + 1..];
    }
  }

  /**
   Longer URLs go first, so a URL is replaced whole wherever it stands, even when shorter collected
   texts are parts of it: if every other collected text in the message is shorter, the first thing that
   happens to the message is that each of its occurrences becomes the mark.
   */
  lemma {:induction false} LongestUrlGoesWhole(pieces: seq<string>, url: string, sorted: seq<string>) returns (k: nat)
    requires Descending(sorted) && NoneEmpty(sorted) && url in sorted && url != "" && IsCut(pieces, url)
    requires forall i :: 0 <= i < |sorted| && sorted[i] != url && Contains(Join(pieces, url), sorted[i]) ==>
               ByteLength(sorted[i]) < ByteLength(url)
    ensures k < |sorted| && sorted[k] == url
    ensures ReplaceAll(Join(pieces, url), sorted) == ReplaceAll(Join(pieces, MARK), sorted[k + 1..])
    ensures (forall i :: k < i < |sorted| ==> !Contains(Join(pieces, MARK), sorted[i])) ==>
              ReplaceAll(Join(pieces, url), sorted) == Join(pieces, MARK)
  {
    hide Join, IsCut, Contains, Replace, ReplaceAll, ByteLength;
    k := LongestGoesFirst(Join(pieces, url), url, sorted);
    ReplaceIsJoin(pieces, url);
    if forall i :: k < i < |sorted| ==> !Contains(Join(pieces, MARK), sorted[i]) {
      ReplaceAllNothing(Join(pieces, MARK), sorted[k + 1..]);
    }
  }
}

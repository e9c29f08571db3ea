/**
 `translate_help_phrases_zh` and `help_translations_zh_longest_first` of src/lib.rs.

 Text is a sequence of characters, with the UTF-8 width of a character as a weight: the catalog is
 sorted by byte length, as in the source, and the scan advances by characters.
 */
module HelpTranslation {
  import opened Prelude
  import opened Strings

  /** A phrase of the catalog and its translation. */
  type Entry = (string, string)

  /** The catalog is static data with non-empty phrases. */
  ghost predicate NonEmptyPhrases(catalog: seq<Entry>) {
    forall i :: 0 <= i < |catalog| ==> catalog[i].0 != ""
  }

  // ----- The stable longest-first order -----

  /** Inserts an entry that came before all of `sorted`: in front of the first one that is not longer. */
  function Insert(entry: Entry, sorted: seq<Entry>): seq<Entry> {
    if sorted == [] || ByteLength(entry.0) >= ByteLength(sorted[0].0) then [entry] + sorted
    else [sorted[0]] + Insert(entry, sorted[1..])
  }

  /** `sort_by` on descending byte length; the sort is stable. */
  function LongestFirst(catalog: seq<Entry>): seq<Entry> {
    if catalog == [] then [] else Insert(catalog[0], LongestFirst(catalog[1..]))
  }

  ghost predicate Descending(entries: seq<Entry>) {
    forall i, j :: 0 <= i < j < |entries| ==> ByteLength(entries[i].0) >= ByteLength(entries[j].0)
  }

  lemma {:induction false} InsertPermutes(entry: Entry, sorted: seq<Entry>)
    ensures multiset(Insert(entry, sorted)) == multiset{entry} + multiset(sorted)
  {
    if sorted != [] && ByteLength(entry.0) < ByteLength(sorted[0].0) {
      InsertPermutes(entry, sorted[1..]);
      assert sorted == [sorted[0]] + sorted[1..];
    }
  }

  lemma {:induction false} InsertSorts(entry: Entry, sorted: seq<Entry>, most: nat)
    requires Descending(sorted) && ByteLength(entry.0) <= most
    requires sorted != [] ==> ByteLength(sorted[0].0) <= most
    ensures Descending(Insert(entry, sorted)) && ByteLength(Insert(entry, sorted)[0].0) <= most
  {
    if sorted != [] && ByteLength(entry.0) < ByteLength(sorted[0].0) {
      InsertSorts(entry, sorted[1..], ByteLength(sorted[0].0));
      DescendingCons(sorted[0], Insert(entry, sorted[1..]));
    } else {
      DescendingCons(entry, sorted);
    }
  }

  lemma {:induction false} DescendingCons(head: Entry, tail: seq<Entry>)
    requires Descending(tail) && (tail != [] ==> ByteLength(head.0) >= ByteLength(tail[0].0))
    ensures Descending([head] + tail)
  {
  }

  lemma {:induction false} LongestFirstDescends(catalog: seq<Entry>)
    ensures Descending(LongestFirst(catalog))
  {
    if catalog != [] {
      var sorted := LongestFirst(catalog[1..]);
      LongestFirstDescends(catalog[1..]);
      var most := if sorted == [] then 0 else ByteLength(sorted[0].0);
      InsertSorts(catalog[0], sorted, Max(ByteLength(catalog[0].0), most));
    }
  }

  lemma {:induction false} LongestFirstPermutes(catalog: seq<Entry>)
    ensures multiset(LongestFirst(catalog)) == multiset(catalog)
  {
    if catalog != [] {
      LongestFirstPermutes(catalog[1..]);
      InsertPermutes(catalog[0], LongestFirst(catalog[1..]));
      assert catalog == [catalog[0]] + catalog[1..];
    }
  }

  /** The entries whose phrase has a given byte length, in list order. */
  function OfLength(entries: seq<Entry>, n: nat): seq<Entry> {
    if entries == [] then []
    else if ByteLength(entries[0].0) == n then [entries[0]] + OfLength(entries[1..], n)
    else OfLength(entries[1..], n)
  }

  lemma {:induction false} InsertIsStable(entry: Entry, sorted: seq<Entry>, n: nat)
    ensures OfLength(Insert(entry, sorted), n) == OfLength([entry] + sorted, n)
  {
    assert ([entry] + sorted)[1..] == sorted;
    if sorted != [] && ByteLength(entry.0) < ByteLength(sorted[0].0) {
      InsertIsStable(entry, sorted[1..], n);
      assert ([entry] + sorted[1..])[1..] == sorted[1..];
      assert Insert(entry, sorted)[1..] == Insert(entry, sorted[1..]);
    }
  }

  /** The sort is stable: the same entries, longest first, and those of one length in catalog order. */
  lemma {:induction false} LongestFirstIsStable(catalog: seq<Entry>, n: nat)
    ensures Descending(LongestFirst(catalog)) && multiset(LongestFirst(catalog)) == multiset(catalog)
    ensures OfLength(LongestFirst(catalog), n) == OfLength(catalog, n)
  {
    LongestFirstDescends(catalog);
    LongestFirstPermutes(catalog);
    if catalog != [] {
      var sorted := LongestFirst(catalog[1..]);
      LongestFirstIsStable(catalog[1..], n);
      InsertIsStable(catalog[0], sorted, n);
      assert ([catalog[0]] + sorted)[1..] == sorted;
    }
  }

  // ----- The phrase chosen at a position -----

  /** The first entry, in list order, whose phrase the text starts with. */
  function FindFirst(entries: seq<Entry>, text: string): (found: Option<Entry>)
    ensures found.Some? ==> found.value.0 <= text && found.value in entries
    ensures found.None? ==> forall i :: 0 <= i < |entries| ==> !(entries[i].0 <= text)
  {
    if entries == [] then None
    else if entries[0].0 <= text then Some(entries[0])
    else FindFirst(entries[1..], text)
  }

  /** Entry `i` of the catalog is the longest that the text starts with, and the first of that phrase. */
  ghost predicate IsBest(catalog: seq<Entry>, text: string, i: nat) {
    && i < |catalog|
    && catalog[i].0 <= text
    && (forall j :: 0 <= j < |catalog| && catalog[j].0 <= text ==> |catalog[j].0| <= |catalog[i].0|)
    && (forall j :: 0 <= j < i ==> catalog[j].0 != catalog[i].0)
  }

  lemma {:induction false} LongerPrefixWeighsMore(p: string, q: string, text: string)
    requires p <= text && q <= text
    ensures ByteLength(p) <= ByteLength(q) <==> |p| <= |q|
  {
    if p != "" && q != "" {
      assert p[1..] <= text[1..] && q[1..] <= text[1..];
      LongerPrefixWeighsMore(p[1..], q[1..], text[1..]);
    }
  }

  /** Among entries whose phrase starts the text, the search in the sorted list goes to the catalog's best. */
  lemma {:induction false} FindInInserted(entry: Entry, sorted: seq<Entry>, text: string)
    requires Descending(sorted)
    ensures FindFirst(Insert(entry, sorted), text)
            == if !(entry.0 <= text) then FindFirst(sorted, text)
               else match FindFirst(sorted, text)
                    case None => Some(entry)
                    case Some(other) => if |other.0| > |entry.0| then Some(other) else Some(entry)
  {
    var found := FindFirst(sorted, text);
    if entry.0 <= text && found.Some? {
      LongerPrefixWeighsMore(found.value.0, entry.0, text);
    }
    if sorted == [] || ByteLength(entry.0) >= ByteLength(sorted[0].0) {
      assert ([entry] + sorted)[1..] == sorted;
      if found.Some? {
        var k :| 0 <= k < |sorted| && sorted[k] == found.value;
        assert ByteLength(sorted[k].0) <= ByteLength(sorted[0].0);
      }
    } else {
      FindInInserted(entry, sorted[1..], text);
      assert Insert(entry, sorted)[1..] == Insert(entry, sorted[1..]);
      if entry.0 <= text && sorted[0].0 <= text {
        LongerPrefixWeighsMore(sorted[0].0, entry.0, text);
      }
    }
  }

  lemma {:induction false} BestMovesUp(catalog: seq<Entry>, text: string, i: nat)
    requires catalog != [] && IsBest(catalog[1..], text, i)
    requires catalog[0].0 <= text ==> |catalog[0].0| < |catalog[1..][i].0|
    ensures IsBest(catalog, text, i + 1) && catalog[i + 1] == catalog[1..][i]
  {
  }

  lemma {:induction false} HeadIsBest(catalog: seq<Entry>, text: string)
    requires catalog != [] && catalog[0].0 <= text
    requires forall j :: 0 <= j < |catalog| - 1 && catalog[1..][j].0 <= text ==>
               |catalog[1..][j].0| <= |catalog[0].0|
    ensures IsBest(catalog, text, 0)
  {
    assert forall j :: 0 < j < |catalog| ==> catalog[j] == catalog[1..][j - 1];
  }

  /** The first hit in the sorted list is the catalog's longest phrase, in its earliest definition. */
  lemma {:induction false} FirstHitIsBest(catalog: seq<Entry>, text: string) returns (best: nat)
    ensures FindFirst(LongestFirst(catalog), text).Some? ==>
              IsBest(catalog, text, best) && catalog[best] == FindFirst(LongestFirst(catalog), text).value
    ensures FindFirst(LongestFirst(catalog), text).None? ==>
              forall i :: 0 <= i < |catalog| ==> !(catalog[i].0 <= text)
  {
    best := 0;
    if catalog != [] {
      var rest := catalog[1..];
      var inRest := FirstHitIsBest(rest, text);
      LongestFirstDescends(rest);
      FindInInserted(catalog[0], LongestFirst(rest), text);
      var found := FindFirst(LongestFirst(rest), text);
      if found.Some? && (catalog[0].0 <= text ==> |catalog[0].0| < |found.value.0|) {
        BestMovesUp(catalog, text, inRest);
        best := inRest + 1;
      } else if catalog[0].0 <= text {
        HeadIsBest(catalog, text);
      } else {
        assert forall j :: 0 < j < |catalog| ==> catalog[j] == rest[j - 1];
      }
    }
  }

  /** The best entry is unique. */
  lemma {:induction false} BestIsUnique(catalog: seq<Entry>, text: string, i: nat, j: nat)
    requires IsBest(catalog, text, i) && IsBest(catalog, text, j)
    ensures i == j
  {
  }

  // ----- The scan -----

  /** The scan over a sorted list; one loop of TranslateHelpPhrases a step. */
  function Translate(sorted: seq<Entry>, text: string): string
    requires NonEmptyPhrases(sorted)
    decreases |text|
  {
    if text == "" then ""
    else
      match FindFirst(sorted, text)
      case Some(entry) => entry.1 + Translate(sorted, text[|entry.0|..])
      case None => [text[0]] + Translate(sorted, text[1..])
  }

  lemma {:induction false} SortedPhrases(catalog: seq<Entry>)
    requires NonEmptyPhrases(catalog)
    ensures NonEmptyPhrases(LongestFirst(catalog))
  {
    LongestFirstPermutes(catalog);
    forall i | 0 <= i < |LongestFirst(catalog)|
      ensures LongestFirst(catalog)[i].0 != ""
    {
      assert LongestFirst(catalog)[i] in multiset(catalog);
    }
  }

  /** `translate_help_phrases_zh` over a catalog in definition order. */
  function TranslateText(catalog: seq<Entry>, text: string): string
    requires NonEmptyPhrases(catalog)
  {
    SortedPhrases(catalog);
    Translate(LongestFirst(catalog), text)
  }

  method TranslateHelpPhrases(catalog: seq<Entry>, text: string) returns (translated: string)
    requires NonEmptyPhrases(catalog)
    ensures translated == TranslateText(catalog, text)
  {
    SortedPhrases(catalog);
    var sorted := LongestFirst(catalog);
    translated := "";
    var offset := 0;
    assert text[0..] == text;
    while offset < |text|
      invariant offset <= |text|
      invariant Translate(sorted, text) == translated + Translate(sorted, text[offset..])
      decreases |text| - offset
    {
      var remaining := text[offset..];
      var found := FindFirst(sorted, remaining);
      if found.Some? {
        assert remaining[|found.value.0|..] == text[offset + |found.value.0|..];
        translated := translated + found.value.1;
        offset := offset + |found.value.0|;
      } else {
        assert remaining[1..] == text[offset + 1..];
        translated := translated + [remaining[0]];
        offset := offset + 1;
      }
    }
  }

  // ----- What a translation is -----

  /** A translated text is cut into catalog phrases and single characters. */
  datatype Segment = Phrase(index: nat) | Literal(c: char)

  /** The cut that takes, at each position, the longest phrase in its earliest definition, else one character. */
  ghost predicate Greedy(catalog: seq<Entry>, text: string, segments: seq<Segment>)
    decreases |segments|
  {
    if segments == [] || text == "" then segments == [] && text == ""
    else
      match segments[0]
      case Phrase(i) => IsBest(catalog, text, i) && Greedy(catalog, text[|catalog[i].0|..], segments[1..])
      case Literal(c) =>
        c == text[0]
        && (forall i :: 0 <= i < |catalog| ==> !(catalog[i].0 <= text))
        && Greedy(catalog, text[1..], segments[1..])
  }

  /** Each phrase replaced by its translation, each character copied. */
  ghost function Rendered(catalog: seq<Entry>, segments: seq<Segment>): string
  {
    if segments == [] then ""
    else (match segments[0]
          case Phrase(i) => if i < |catalog| then catalog[i].1 else ""
          case Literal(c) => [c])
         + Rendered(catalog, segments[1..])
  }

  /** The scan of the sorted list renders the greedy cut of the text, whichever greedy cut is given. */
  lemma {:induction false} TranslationIsGreedy(catalog: seq<Entry>, text: string, segments: seq<Segment>)
    requires NonEmptyPhrases(catalog) && Greedy(catalog, text, segments)
    ensures TranslateText(catalog, text) == Rendered(catalog, segments)
    decreases |segments|
  {
    SortedPhrases(catalog);
    if segments != [] {
      var best := FirstHitIsBest(catalog, text);
      match segments[0]
      case Phrase(i) =>
        if FindFirst(LongestFirst(catalog), text).Some? {
          BestIsUnique(catalog, text, i, best);
        }
        TranslationIsGreedy(catalog, text[|catalog[i].0|..], segments[1..]);
      case Literal(_) =>
        TranslationIsGreedy(catalog, text[1..], segments[1..]);
    }
  }

  /** Every text has a greedy cut. */
  lemma {:induction false} GreedyCutExists(catalog: seq<Entry>, text: string) returns (segments: seq<Segment>)
    requires NonEmptyPhrases(catalog)
    ensures Greedy(catalog, text, segments)
    decreases |text|
  {
    segments := [];
    if text != "" {
      var best := FirstHitIsBest(catalog, text);
      if FindFirst(LongestFirst(catalog), text).Some? {
        var rest := GreedyCutExists(catalog, text[|catalog[best].0|..]);
        segments := [Phrase(best)] + rest;
        assert segments[1..] == rest;
      } else {
        var rest := GreedyCutExists(catalog, text[1..]);
        segments := [Literal(text[0])] + rest;
        assert segments[1..] == rest;
      }
    }
  }

  /** A text that is a phrase of the catalog becomes exactly the translation of its first definition. */
  lemma {:induction false} WholePhrase(catalog: seq<Entry>, i: nat)
    requires NonEmptyPhrases(catalog) && i < |catalog|
    requires forall j :: 0 <= j < i ==> catalog[j].0 != catalog[i].0
    ensures TranslateText(catalog, catalog[i].0) == catalog[i].1
  {
    var text := catalog[i].0;
    assert text[|text|..] == "";
    assert Greedy(catalog, "", []);
    assert [Phrase(i)][1..] == [];
    assert Greedy(catalog, text, [Phrase(i)]);
    TranslationIsGreedy(catalog, text, [Phrase(i)]);
    assert Rendered(catalog, [Phrase(i)]) == catalog[i].1 + Rendered(catalog, []);
  }

  /** A text in which no phrase starts anywhere is unchanged. */
  lemma {:induction false} NoPhraseNoChange(catalog: seq<Entry>, text: string)
    requires NonEmptyPhrases(catalog)
    requires forall i, k :: 0 <= i < |catalog| && 0 <= k < |text| ==> !(catalog[i].0 <= text[k..])
    ensures TranslateText(catalog, text) == text
    decreases |text|
  {
    SortedPhrases(catalog);
    if text != "" {
      assert text[0..] == text;
      var best := FirstHitIsBest(catalog, text);
      forall i, k | 0 <= i < |catalog| && 0 <= k < |text[1..]|
        ensures !(catalog[i].0 <= text[1..][k..])
      {
        assert text[1..][k..] == text[k + 1..];
      }
      NoPhraseNoChange(catalog, text[1..]);
    }
  }
}

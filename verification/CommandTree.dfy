/** The command tree of crates/tos/src/registry.rs: flattening, lookup and command paths. */
module CommandTree {
  import opened Prelude
  import opened Strings

  /** A tree entry; the metadata beside name and path is one opaque value. */
  datatype Entry = Entry(name: string, command: string, info: nat, subcommands: seq<Entry>)

  // ----- Normalised commands -----

  /** The legacy spelling of a group is mapped to the canonical one. */
  function CanonicalWords(words: seq<string>): seq<string> {
    if |words| >= 2 && words[0] == "ve-tos" && words[1] == "storgeclass" then words[1 := "storageclass"] else words
  }

  function NormalizeCommand(command: string): string {
    Join(CanonicalWords(Words(command, IsSpace)), " ")
  }

  lemma {:induction false} CanonicalWordsAreWords(words: seq<string>)
    requires AreWords(words, IsSpace)
    ensures AreWords(CanonicalWords(words), IsSpace)
    ensures CanonicalWords(CanonicalWords(words)) == CanonicalWords(words)
  {
  }

  /** The words of a normalised command are the canonical words of the command. */
  lemma {:induction false} WordsOfNormalized(command: string)
    ensures Words(NormalizeCommand(command), IsSpace) == CanonicalWords(Words(command, IsSpace))
  {
    CanonicalWordsAreWords(Words(command, IsSpace));
    WordsOfJoin(CanonicalWords(Words(command, IsSpace)), IsSpace);
  }

  /** Normalising twice is normalising once. */
  lemma {:induction false} NormalizeIsIdempotent(command: string)
    ensures NormalizeCommand(NormalizeCommand(command)) == NormalizeCommand(command)
  {
    CanonicalWordsAreWords(Words(command, IsSpace));
    WordsOfNormalized(command);
  }

  // ----- Flattening and lookup -----

  /** Pre-order: an entry, then its subtrees. */
  function Flatten(entry: Entry): seq<Entry>
    decreases entry, 1
  {
    [entry] + FlattenAll(entry.subcommands)
  }

  function FlattenAll(entries: seq<Entry>): seq<Entry>
    decreases entries, 0
  {
    if entries == [] then [] else Flatten(entries[0]) + FlattenAll(entries[1..])
  }

  /** `push_flattened_command`. */
  method PushFlattened(entry: Entry, entries: seq<Entry>) returns (pushed: seq<Entry>)
    ensures pushed == entries + Flatten(entry)
    decreases entry
  {
    pushed := entries + [entry];
    var i := 0;
    assert entry.subcommands[0..] == entry.subcommands;
    while i < |entry.subcommands|
      invariant i <= |entry.subcommands|
      invariant entries + Flatten(entry) == pushed + FlattenAll(entry.subcommands[i..])
    {
      assert entry.subcommands[i..][1..] == entry.subcommands[i + 1..];
      var child := entry.subcommands[i];
      ghost var rest := FlattenAll(entry.subcommands[i + 1..]);
      AppendFlattened(pushed, Flatten(child), rest);
      pushed := PushFlattened(child, pushed);
      i := i + 1;
    }
    assert entry.subcommands[i..] == [];
  }

  lemma {:induction false} AppendFlattened(a: seq<Entry>, b: seq<Entry>, c: seq<Entry>)
    ensures a + (b + c) == a + b + c
  {
  }

  /** `find_command_tree_entry_in`. */
  function FindIn(entry: Entry, query: string): Option<Entry>
    decreases entry, 1
  {
    if NormalizeCommand(entry.command) == query then Some(entry) else FindAny(entry.subcommands, query)
  }

  /** `find_map` over siblings. */
  function FindAny(entries: seq<Entry>, query: string): Option<Entry>
    decreases entries, 0
  {
    if entries == [] then None
    else
      var found := FindIn(entries[0], query);
      if found.Some? then found else FindAny(entries[1..], query)
  }

  function FindEntry(tree: seq<Entry>, command: string): Option<Entry> {
    FindAny(tree, NormalizeCommand(command))
  }

  function FirstMatch(entries: seq<Entry>, query: string): (found: Option<Entry>)
    ensures found.None? ==> forall i :: 0 <= i < |entries| ==> NormalizeCommand(entries[i].command) != query
    ensures found.Some? ==> found.value in entries && NormalizeCommand(found.value.command) == query
  {
    if entries == [] then None
    else if NormalizeCommand(entries[0].command) == query then Some(entries[0])
    else FirstMatch(entries[1..], query)
  }

  lemma {:induction false} FirstMatchConcat(a: seq<Entry>, b: seq<Entry>, query: string)
    ensures FirstMatch(a + b, query)
            == if FirstMatch(a, query).Some? then FirstMatch(a, query) else FirstMatch(b, query)
  {
    if a == [] {
      assert a + b == b;
    } else {
      assert (a + b)[1..] == a[1..] + b;
      FirstMatchConcat(a[1..], b, query);
    }
  }

  lemma {:induction false} FindInAgrees(entry: Entry, query: string)
    ensures FindIn(entry, query) == FirstMatch(Flatten(entry), query)
    decreases entry, 1
  {
    assert ([entry] + FlattenAll(entry.subcommands))[1..] == FlattenAll(entry.subcommands);
    FindAnyAgrees(entry.subcommands, query);
  }

  lemma {:induction false} FindAnyAgrees(entries: seq<Entry>, query: string)
    ensures FindAny(entries, query) == FirstMatch(FlattenAll(entries), query)
    decreases entries, 0
  {
    if entries != [] {
      FindInAgrees(entries[0], query);
      FindAnyAgrees(entries[1..], query);
      FirstMatchConcat(Flatten(entries[0]), FlattenAll(entries[1..]), query);
    }
  }

  /** Lookup in the tree is lookup in the flat index, for every tree and every query. */
  lemma {:induction false} LookupAgreesWithIndex(tree: seq<Entry>, command: string)
    ensures FindEntry(tree, command) == FirstMatch(FlattenAll(tree), NormalizeCommand(command))
  {
    FindAnyAgrees(tree, NormalizeCommand(command));
  }

  // ----- Trees built from a command definition -----

  /** A command definition: its name and its subcommands. */
  datatype Definition = Definition(name: string, info: nat, subcommands: seq<Definition>)

  /** `command_tree_entry`: the path of an entry is its parent's path and its name. */
  function TreeEntry(definition: Definition, parent: string): Entry
    decreases definition, 1
  {
    var command := parent + " " + definition.name;
    Entry(definition.name, command, definition.info, TreeEntries(definition.subcommands, command))
  }

  function TreeEntries(definitions: seq<Definition>, parent: string): (entries: seq<Entry>)
    ensures |entries| == |definitions|
    decreases definitions, 0
  {
    if definitions == [] then [] else [TreeEntry(definitions[0], parent)] + TreeEntries(definitions[1..], parent)
  }

  /** Names are single words, and siblings have different names, at every level. */
  ghost predicate WellNamed(definition: Definition)
    decreases definition, 1
  {
    definition.name != "" && NoSpace(definition.name, IsSpace) && AllWellNamed(definition.subcommands)
  }

  ghost predicate AllWellNamed(definitions: seq<Definition>)
    decreases definitions, 0
  {
    definitions == []
    || (WellNamed(definitions[0]) && AllWellNamed(definitions[1..])
        && forall i :: 0 < i < |definitions| ==> definitions[i].name != definitions[0].name)
  }

  /** The word paths of the flattened tree, in the same order. */
  function Paths(definition: Definition, parent: seq<string>): seq<seq<string>>
    decreases definition, 1
  {
    var path := parent + [definition.name];
    [path] + AllPaths(definition.subcommands, path)
  }

  function AllPaths(definitions: seq<Definition>, parent: seq<string>): seq<seq<string>>
    decreases definitions, 0
  {
    if definitions == [] then [] else Paths(definitions[0], parent) + AllPaths(definitions[1..], parent)
  }

  ghost predicate Named(entries: seq<Entry>, paths: seq<seq<string>>) {
    |entries| == |paths| && forall i :: 0 <= i < |entries| ==> entries[i].command == Join(paths[i], " ")
  }

  lemma {:induction false} JoinSnoc(parts: seq<string>, last: string)
    requires parts != []
    ensures Join(parts + [last], " ") == Join(parts, " ") + " " + last
  {
    if |parts| == 1 {
      assert (parts + [last])[1..] == [last];
    } else {
      assert (parts + [last])[1..] == parts[1..] + [last];
      JoinSnoc(parts[1..], last);
    }
  }

  lemma {:induction false} NamedConcat(a: seq<Entry>, p: seq<seq<string>>, b: seq<Entry>, q: seq<seq<string>>)
    requires Named(a, p) && Named(b, q)
    ensures Named(a + b, p + q)
  {
  }

  lemma {:induction false} EntriesAreNamed(definition: Definition, parent: seq<string>)
    requires parent != []
    ensures Named(Flatten(TreeEntry(definition, Join(parent, " "))), Paths(definition, parent))
    decreases definition, 1
  {
    var path := parent + [definition.name];
    JoinSnoc(parent, definition.name);
    AllEntriesAreNamed(definition.subcommands, path);
    var entry := TreeEntry(definition, Join(parent, " "));
    NamedConcat([entry], [path], FlattenAll(entry.subcommands), AllPaths(definition.subcommands, path));
  }

  lemma {:induction false} AllEntriesAreNamed(definitions: seq<Definition>, parent: seq<string>)
    requires parent != []
    ensures Named(FlattenAll(TreeEntries(definitions, Join(parent, " "))), AllPaths(definitions, parent))
    decreases definitions, 0
  {
    if definitions != [] {
      var entries := TreeEntries(definitions, Join(parent, " "));
      EntriesAreNamed(definitions[0], parent);
      AllEntriesAreNamed(definitions[1..], parent);
      assert entries[1..] == TreeEntries(definitions[1..], Join(parent, " "));
      NamedConcat(Flatten(entries[0]), Paths(definitions[0], parent),
                  FlattenAll(entries[1..]), AllPaths(definitions[1..], parent));
    }
  }

  // ----- Distinct paths -----

  ghost predicate Distinct(paths: seq<seq<string>>) {
    forall i, j :: 0 <= i < j < |paths| ==> paths[i] != paths[j]
  }

  /** A path below `parent` whose next word is `name`. */
  ghost predicate Below(path: seq<string>, parent: seq<string>, name: string) {
    |path| > |parent| && path[..|parent|] == parent && path[|parent|] == name && AreWords(path[|parent|..], IsSpace)
  }

  lemma {:induction false} DistinctConcat(a: seq<seq<string>>, b: seq<seq<string>>)
    requires Distinct(a) && Distinct(b)
    requires forall i, j :: 0 <= i < |a| && 0 <= j < |b| ==> a[i] != b[j]
    ensures Distinct(a + b)
  {
  }

  lemma {:induction false} BelowShorter(path: seq<string>, parent: seq<string>, name: string, next: string)
    requires Below(path, parent + [name], next) && name != "" && NoSpace(name, IsSpace)
    ensures Below(path, parent, name)
  {
  }

  lemma {:induction false} PathsAreDistinct(definition: Definition, parent: seq<string>)
    requires WellNamed(definition)
    ensures Distinct(Paths(definition, parent))
    ensures forall i :: 0 <= i < |Paths(definition, parent)| ==>
              Below(Paths(definition, parent)[i], parent, definition.name)
    decreases definition, 1
  {
    var path := parent + [definition.name];
    var below := AllPaths(definition.subcommands, path);
    AllPathsAreDistinct(definition.subcommands, path);
    assert path[|parent|..] == [definition.name];
    forall i | 0 <= i < |below|
      ensures Below(below[i], parent, definition.name) && below[i] != path
    {
      var k :| 0 <= k < |definition.subcommands| && Below(below[i], path, definition.subcommands[k].name);
      BelowShorter(below[i], parent, definition.name, definition.subcommands[k].name);
    }
    DistinctConcat([path], below);
  }

  lemma {:induction false} AllPathsAreDistinct(definitions: seq<Definition>, parent: seq<string>)
    requires AllWellNamed(definitions)
    ensures Distinct(AllPaths(definitions, parent))
    ensures forall i :: 0 <= i < |AllPaths(definitions, parent)| ==>
              exists k :: 0 <= k < |definitions| && Below(AllPaths(definitions, parent)[i], parent, definitions[k].name)
    decreases definitions, 0
  {
    if definitions != [] {
      var a := Paths(definitions[0], parent);
      var b := AllPaths(definitions[1..], parent);
      PathsAreDistinct(definitions[0], parent);
      AllPathsAreDistinct(definitions[1..], parent);
      forall j | 0 <= j < |b|
        ensures exists k :: 0 < k < |definitions| && Below(b[j], parent, definitions[k].name)
      {
        var k :| 0 <= k < |definitions[1..]| && Below(b[j], parent, definitions[1..][k].name);
        assert definitions[k + 1] == definitions[1..][k];
      }
      forall i, j | 0 <= i < |a| && 0 <= j < |b|
        ensures a[i] != b[j]
      {
        assert Below(a[i], parent, definitions[0].name);
        var k :| 0 < k < |definitions| && Below(b[j], parent, definitions[k].name);
      }
      DistinctConcat(a, b);
    }
  }

  // ----- Each entry is found by its own path -----

  function ToolTree(definitions: seq<Definition>): seq<Entry> {
    TreeEntries(definitions, "ve-tos")
  }

  ghost predicate HasTop(definitions: seq<Definition>, name: string) {
    exists k :: 0 <= k < |definitions| && definitions[k].name == name
  }

  /** Both spellings of the group whose legacy spelling is mapped to the canonical one. */
  ghost predicate MixesSpellings(definitions: seq<Definition>) {
    HasTop(definitions, "storgeclass") && HasTop(definitions, "storageclass")
  }

  lemma {:induction false} PathWords(definitions: seq<Definition>, i: nat)
    requires AllWellNamed(definitions) && i < |AllPaths(definitions, ["ve-tos"])|
    ensures var path := AllPaths(definitions, ["ve-tos"])[i];
            && Words(NormalizeCommand(Join(path, " ")), IsSpace) == CanonicalWords(path)
            && |path| >= 2 && path[0] == "ve-tos" && HasTop(definitions, path[1])
  {
    var path := AllPaths(definitions, ["ve-tos"])[i];
    AllPathsAreDistinct(definitions, ["ve-tos"]);
    var k :| 0 <= k < |definitions| && Below(path, ["ve-tos"], definitions[k].name);
    assert path == path[..1] + path[1..];
    assert path[0] == path[..1][0] == "ve-tos";
    assert NoSpace("ve-tos", IsSpace);
    assert AreWords(path, IsSpace) by {
      forall j | 0 <= j < |path|
        ensures path[j] != "" && NoSpace(path[j], IsSpace)
      {
        if j > 0 {
          assert path[j] == path[1..][j - 1];
        }
      }
    }
    WordsOfJoin(path, IsSpace);
    WordsOfNormalized(Join(path, " "));
  }

  lemma {:induction false} CanonicalCollision(p: seq<string>, q: seq<string>)
    requires |p| >= 2 && |q| >= 2 && p[0] == q[0] == "ve-tos"
    requires p != q && CanonicalWords(p) == CanonicalWords(q)
    ensures (p[1] == "storgeclass" && q[1] == "storageclass") || (p[1] == "storageclass" && q[1] == "storgeclass")
  {
    assert p == [p[0], p[1]] + p[2..] && q == [q[0], q[1]] + q[2..];
    assert CanonicalWords(p)[2..] == p[2..] && CanonicalWords(q)[2..] == q[2..];
    assert p[1] != q[1];
  }

  /** All flattened command paths are distinct, also after normalisation. */
  lemma {:induction false} CommandsAreDistinct(definitions: seq<Definition>, i: nat, j: nat)
    requires AllWellNamed(definitions) && !MixesSpellings(definitions)
    requires i < j < |FlattenAll(ToolTree(definitions))|
    ensures var entries := FlattenAll(ToolTree(definitions));
            NormalizeCommand(entries[i].command) != NormalizeCommand(entries[j].command)
  {
    assert Join(["ve-tos"], " ") == "ve-tos";
    AllEntriesAreNamed(definitions, ["ve-tos"]);
    AllPathsAreDistinct(definitions, ["ve-tos"]);
    PathWords(definitions, i);
    PathWords(definitions, j);
    var p, q := AllPaths(definitions, ["ve-tos"])[i], AllPaths(definitions, ["ve-tos"])[j];
    if CanonicalWords(p) == CanonicalWords(q) {
      CanonicalCollision(p, q);
      assert false;
    }
  }

  lemma {:induction false} FirstOfDistinct(entries: seq<Entry>, i: nat)
    requires i < |entries|
    requires forall j :: 0 <= j < i ==> NormalizeCommand(entries[j].command) != NormalizeCommand(entries[i].command)
    ensures FirstMatch(entries, NormalizeCommand(entries[i].command)) == Some(entries[i])
  {
    if i > 0 {
      assert entries[1..][i - 1] == entries[i];
      assert forall j :: 0 <= j < i - 1 ==> entries[1..][j] == entries[j + 1];
      FirstOfDistinct(entries[1..], i - 1);
    }
  }

  lemma {:induction false} EntryIsFound(definitions: seq<Definition>, i: nat)
    requires AllWellNamed(definitions) && !MixesSpellings(definitions)
    requires i < |FlattenAll(ToolTree(definitions))|
    ensures var entries := FlattenAll(ToolTree(definitions));
            FindEntry(ToolTree(definitions), entries[i].command) == Some(entries[i])
  {
    var entries := FlattenAll(ToolTree(definitions));
    forall j | 0 <= j < i
      ensures NormalizeCommand(entries[j].command) != NormalizeCommand(entries[i].command)
    {
      CommandsAreDistinct(definitions, j, i);
    }
    FirstOfDistinct(entries, i);
    LookupAgreesWithIndex(ToolTree(definitions), entries[i].command);
  }

  lemma {:induction false} TopIsFlattened(definitions: seq<Definition>, parent: string, k: nat) returns (i: nat)
    requires k < |definitions|
    ensures i < |FlattenAll(TreeEntries(definitions, parent))|
    ensures FlattenAll(TreeEntries(definitions, parent))[i].command == parent + " " + definitions[k].name
  {
    var entries := TreeEntries(definitions, parent);
    assert entries[1..] == TreeEntries(definitions[1..], parent);
    if k == 0 {
      i := 0;
    } else {
      var j := TopIsFlattened(definitions[1..], parent, k - 1);
      i := |Flatten(entries[0])| + j;
    }
  }

  lemma {:induction false} BlankIsSpace()
    ensures IsSpace(' ')
  {
  }

  lemma {:induction false} TwoWordsRead(first: string, second: string)
    requires AreWords([first, second], IsSpace)
    ensures Words(first + " " + second, IsSpace) == [first, second]
  {
    BlankIsSpace();
    hide Words, IsSpace;
    WordsOfJoin([first, second], IsSpace);
    assert [first, second][1..] == [second];
  }

  lemma {:induction false} SpellingsNormalizeAlike()
    ensures NormalizeCommand("ve-tos" + " " + "storgeclass") == NormalizeCommand("ve-tos" + " " + "storageclass")
  {
    SpellingsAreWords();
    hide Words, IsSpace, AreWords;
    TwoWordsRead("ve-tos", "storgeclass");
    TwoWordsRead("ve-tos", "storageclass");
    assert CanonicalWords(["ve-tos", "storgeclass"]) == ["ve-tos", "storageclass"];
  }

  /**
   With distinct single-word sibling names, every entry of the tree is found by its own command path
   exactly when the top level does not hold both spellings of the renamed group.
   */
  lemma {:induction false} EveryEntryIsFoundIff(definitions: seq<Definition>)
    requires AllWellNamed(definitions)
    ensures var entries := FlattenAll(ToolTree(definitions));
            (forall i :: 0 <= i < |entries| ==>
               FindEntry(ToolTree(definitions), entries[i].command) == Some(entries[i]))
            <==> !MixesSpellings(definitions)
  {
    hide NormalizeCommand, FlattenAll, FindAny, TreeEntries, AllWellNamed;
    var entries := FlattenAll(ToolTree(definitions));
    if MixesSpellings(definitions) {
      var k :| 0 <= k < |definitions| && definitions[k].name == "storgeclass";
      var l :| 0 <= l < |definitions| && definitions[l].name == "storageclass";
      var i := TopIsFlattened(definitions, "ve-tos", k);
      var j := TopIsFlattened(definitions, "ve-tos", l);
      SpellingsNormalizeAlike();
      assert |entries[i].command| != |entries[j].command|;
      assert FindEntry(ToolTree(definitions), entries[i].command)
             == FindEntry(ToolTree(definitions), entries[j].command);
    } else {
      forall i | 0 <= i < |entries|
        ensures FindEntry(ToolTree(definitions), entries[i].command) == Some(entries[i])
      {
        EntryIsFound(definitions, i);
      }
    }
  }

  /** The legacy spelling of the group becomes the canonical one, and nothing else but white space is touched. */
  lemma {:induction false} NormalizeIs(words: seq<string>)
    requires AreWords(words, IsSpace)
    ensures NormalizeCommand(Join(["ve-tos", "storgeclass"] + words, " "))
            == Join(["ve-tos", "storageclass"] + words, " ")
    ensures !(["ve-tos", "storgeclass"] <= words) ==> NormalizeCommand(Join(words, " ")) == Join(words, " ")
  {
    hide Words, IsSpace, AreWords, Join, NormalizeCommand;
    var legacy := ["ve-tos", "storgeclass"] + words;
    SpellingsAreWords();
    WordsConcat(["ve-tos", "storgeclass"], words);
    NormalizeJoined(legacy);
    NormalizeJoined(words);
    assert CanonicalWords(legacy) == ["ve-tos", "storageclass"] + words;
    assert |words| >= 2 && words[0] == "ve-tos" && words[1] == "storgeclass" ==>
        words[..2] == ["ve-tos", "storgeclass"];
  }

  lemma {:induction false} NormalizeJoined(words: seq<string>)
    requires AreWords(words, IsSpace)
    ensures NormalizeCommand(Join(words, " ")) == Join(CanonicalWords(words), " ")
  {
    BlankIsSpace();
    hide Words, IsSpace, AreWords;
    WordsOfJoin(words, IsSpace);
  }

  lemma {:induction false} WordsConcat(a: seq<string>, b: seq<string>)
    requires AreWords(a, IsSpace) && AreWords(b, IsSpace)
    ensures AreWords(a + b, IsSpace)
  {
  }

  lemma {:induction false} SpellingsAreWords()
    ensures AreWords(["ve-tos", "storgeclass"], IsSpace) && AreWords(["ve-tos", "storageclass"], IsSpace)
  {
  }
}

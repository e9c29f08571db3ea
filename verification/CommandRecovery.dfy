/**
 `recovered_command_path` of src/lib.rs over the scanners of ArgumentScan, with the command catalogs
 as parameters.
 */
module CommandRecovery {
  import opened Prelude
  import opened Strings
  import opened ArgumentScan
  import opened HelpReorder
  import opened HelpIdentity

  /** Lookups in the static catalogs: is a command path known, and the command of a ve-tos group. */
  datatype Catalogs = Catalogs(
    tos: string -> bool,
    veTos: string -> bool,
    veTosGroup: string -> Option<string>,
    adrive: string -> bool)

  function CanonicalTool(tool: string): string {
    if tool == "byted-tos" then "tos" else tool
  }

  function Candidate(prefix: string, tokens: seq<string>, length: nat): string
    requires length <= |tokens|
  {
    prefix + " " + Join(tokens[..length], " ")
  }

  /** The longest candidate that is known, trying `length` tokens down to one. */
  function LongestKnown(prefix: string, tokens: seq<string>, length: nat, known: string -> bool): (r: Option<string>)
    requires length <= |tokens|
    ensures r.Some? ==> known(r.value)
    ensures r.Some? ==>
              exists n :: 1 <= n <= length && r.value == Candidate(prefix, tokens, n)
                          && forall m :: n < m <= length ==> !known(Candidate(prefix, tokens, m))
    ensures r.None? ==> forall m :: 1 <= m <= length ==> !known(Candidate(prefix, tokens, m))
  {
    if length == 0 then None
    else if known(Candidate(prefix, tokens, length)) then Some(Candidate(prefix, tokens, length))
    else LongestKnown(prefix, tokens, length - 1, known)
  }

  predicate IsConfigAction(token: string) {
    token == "init" || token == "show" || token == "set"
  }

  predicate IsIdentifierChar(c: char) {
    'a' <= c <= 'z' || 'A' <= c <= 'Z' || '0' <= c <= '9' || c == '_' || c == '-'
  }

  predicate IsIdentifier(token: string) {
    token != "" && forall i :: 0 <= i < |token| ==> IsIdentifierChar(token[i])
  }

  /** `recovered_adrive_command_path`. */
  function AdrivePath(catalogs: Catalogs, tokens: seq<string>): string {
    if |tokens| >= 2 && tokens[0] == "config" && IsConfigAction(tokens[1]) then "ve-adrive config " + tokens[1]
    else if |tokens| >= 2 && tokens[0] == "skill" && (tokens[1] == "list" || tokens[1] == "ls") then
      "ve-adrive skill list"
    else if |tokens| >= 2 && tokens[0] == "skill" && tokens[1] == "export" then "ve-adrive skill export"
    else if |tokens| >= 3 && tokens[0] == "api" && IsIdentifier(tokens[1]) && IsIdentifier(tokens[2]) then
      "ve-adrive api " + tokens[1] + " " + tokens[2]
    else
      match LongestKnown("ve-adrive", tokens, |tokens|, catalogs.adrive)
      case Some(command) => command
      case None => if tokens != [] && tokens[0] == "share" then "ve-adrive share" else "ve-adrive"
  }

  /** The path for a tool and the operands that follow it. */
  function PathOf(catalogs: Catalogs, tool: string, tokens: seq<string>): string {
    if tokens == [] then CanonicalTool(tool)
    else if tool == "byted-tos" then
      if |tokens| >= 2 && tokens[0] == "config" && IsConfigAction(tokens[1]) then "tos config " + tokens[1]
      else
        match LongestKnown("tos", tokens, |tokens|, catalogs.tos)
        case Some(command) => command
        case None => Candidate("tos", tokens, |tokens|)
    else if tool == "ve-tos" then
      var group := catalogs.veTosGroup(tokens[0]);
      match LongestKnown("ve-tos", tokens, |tokens|, command => catalogs.veTos(command) || group == Some(command))
      case Some(command) => command
      case None => Candidate("ve-tos", tokens, |tokens|)
    else if tool == "ve-adrive" then AdrivePath(catalogs, tokens)
    else Candidate(tool, tokens, |tokens|)
  }

  /** `recovered_command_path`. */
  function RecoveredCommandPath(table: OptionTable, catalogs: Catalogs, arguments: seq<string>, tool: string): string {
    match ToolPosition(table, arguments, tool)
    case None => tool
    case Some(index) => PathOf(catalogs, tool, Operands(Items(table, arguments[index + 1..], 0)))
  }

  /** The path depends on the command line only through its identity. */
  lemma {:induction false} PathOfIdentity(table: OptionTable, catalogs: Catalogs, arguments: seq<string>, tool: string)
    requires table.Valid()
    ensures var identity := CommandIdentity(table, arguments);
            RecoveredCommandPath(table, catalogs, arguments, tool)
            == if identity.Service? && MatchesTool(identity.name, tool)
               then PathOf(catalogs, tool, identity.tokens)
               else tool
  {
    ScannersAgree(table, arguments, tool);
  }

  /**
   Moving the help flag changes neither which tool is found nor the recovered command path, for every
   tool and every catalog, whenever nothing is moved or the condition of HelpIdentity holds.
   */
  lemma {:induction false} HelpReorderKeepsCommand(table: OptionTable, catalogs: Catalogs,
                                                   arguments: seq<string>, tool: string)
    requires table.Valid() && (Rewrites(table, arguments) ==> KeepsIdentity(table, arguments))
    ensures var normalized := Normalize(table, arguments);
            && (ToolPosition(table, normalized, tool).Some? <==> ToolPosition(table, arguments, tool).Some?)
            && RecoveredCommandPath(table, catalogs, normalized, tool)
               == RecoveredCommandPath(table, catalogs, arguments, tool)
  {
    var normalized := Normalize(table, arguments);
    if Rewrites(table, arguments) {
      IdentityKeptIff(table, arguments);
    }
    PathOfIdentity(table, catalogs, arguments, tool);
    PathOfIdentity(table, catalogs, normalized, tool);
    ScannersAgree(table, arguments, tool);
    ScannersAgree(table, normalized, tool);
  }

  /** A recovered A-Drive path is registered, a fixed utility path, or an `api` path made of plain identifiers. */
  lemma {:induction false} AdrivePathIsPublic(catalogs: Catalogs, tokens: seq<string>)
    ensures var path := AdrivePath(catalogs, tokens);
            || catalogs.adrive(path)
            || path == "ve-adrive" || path == "ve-adrive share"
            || path == "ve-adrive skill list" || path == "ve-adrive skill export"
            || (exists action :: IsConfigAction(action) && path == "ve-adrive config " + action)
            || (exists group, action ::
                  IsIdentifier(group) && IsIdentifier(action) && path == "ve-adrive api " + group + " " + action)
  {
  }

  // ----- Which path is recovered, from the tokens and the catalogs alone -----

  /** A command that a tool's own catalog holds. */
  ghost predicate IsKnown(catalogs: Catalogs, tool: string, tokens: seq<string>, command: string)
    requires tokens != []
  {
    || (tool == "byted-tos" && catalogs.tos(command))
    || (tool == "ve-tos" && (catalogs.veTos(command) || catalogs.veTosGroup(tokens[0]) == Some(command)))
    || (tool == "ve-adrive" && catalogs.adrive(command))
  }

  /** The utility leaves that are recovered without a catalog. */
  ghost predicate IsUtility(tool: string, tokens: seq<string>) {
    && |tokens| >= 2
    && (|| ((tool == "byted-tos" || tool == "ve-adrive")
            && tokens[0] == "config" && (tokens[1] == "init" || tokens[1] == "show" || tokens[1] == "set"))
        || (tool == "ve-adrive" && tokens[0] == "skill"
            && (tokens[1] == "list" || tokens[1] == "ls" || tokens[1] == "export"))
        || (tool == "ve-adrive" && |tokens| >= 3 && tokens[0] == "api"
            && IsIdentifier(tokens[1]) && IsIdentifier(tokens[2])))
  }

  lemma {:induction false} LongestKnownIs(prefix: string, tokens: seq<string>, n: nat, known: string -> bool)
    requires 1 <= n <= |tokens| && known(Candidate(prefix, tokens, n))
    requires forall m :: n < m <= |tokens| ==> !known(Candidate(prefix, tokens, m))
    ensures LongestKnown(prefix, tokens, |tokens|, known) == Some(Candidate(prefix, tokens, n))
  {
  }

  /** With a known leaf in front, the operands behind it are left out: the longest known path is recovered. */
  lemma {:induction false} KnownLeafIsRecovered(catalogs: Catalogs, tool: string, tokens: seq<string>, n: nat)
    requires 1 <= n <= |tokens| && !IsUtility(tool, tokens)
    requires var name := if tool == "byted-tos" then "tos" else tool;
             && IsKnown(catalogs, tool, tokens, name + " " + Join(tokens[..n], " "))
             && forall m :: n < m <= |tokens| ==> !IsKnown(catalogs, tool, tokens, name + " " + Join(tokens[..m], " "))
    ensures PathOf(catalogs, tool, tokens)
            == (if tool == "byted-tos" then "tos" else tool) + " " + Join(tokens[..n], " ")
  {
    var name := if tool == "byted-tos" then "tos" else tool;
    if tool == "byted-tos" {
      LongestKnownIs(name, tokens, n, catalogs.tos);
    } else if tool == "ve-tos" {
      var group := catalogs.veTosGroup(tokens[0]);
      LongestKnownIs(name, tokens, n, command => catalogs.veTos(command) || group == Some(command));
    } else {
      LongestKnownIs(name, tokens, n, catalogs.adrive);
    }
  }

  /** With no known leaf, all tokens are kept, except for A-Drive, whose operands may be secret. */
  lemma {:induction false} UnknownIsKept(catalogs: Catalogs, tool: string, tokens: seq<string>)
    requires tokens != [] && !IsUtility(tool, tokens)
    requires var name := if tool == "byted-tos" then "tos" else tool;
             forall m :: 1 <= m <= |tokens| ==> !IsKnown(catalogs, tool, tokens, name + " " + Join(tokens[..m], " "))
    ensures PathOf(catalogs, tool, tokens)
            == if tool == "ve-adrive" then (if tokens[0] == "share" then "ve-adrive share" else "ve-adrive")
               else (if tool == "byted-tos" then "tos" else tool) + " " + Join(tokens, " ")
  {
    assert tokens[..|tokens|] == tokens;
    assert forall m :: 1 <= m <= |tokens| ==>
        Candidate(if tool == "byted-tos" then "tos" else tool, tokens, m)
        == (if tool == "byted-tos" then "tos" else tool) + " " + Join(tokens[..m], " ");
  }

  /** The utility leaves keep their action and nothing behind it; no token at all gives the tool. */
  lemma {:induction false} UtilityIsRecovered(catalogs: Catalogs, action: string, group: string, rest: seq<string>)
    ensures action == "init" || action == "show" || action == "set" ==>
              PathOf(catalogs, "byted-tos", ["config", action] + rest) == "tos config " + action
              && PathOf(catalogs, "ve-adrive", ["config", action] + rest) == "ve-adrive config " + action
    ensures action == "list" || action == "ls" ==>
              PathOf(catalogs, "ve-adrive", ["skill", action] + rest) == "ve-adrive skill list"
    ensures PathOf(catalogs, "ve-adrive", ["skill", "export"] + rest) == "ve-adrive skill export"
    ensures IsIdentifier(group) && IsIdentifier(action) ==>
              PathOf(catalogs, "ve-adrive", ["api", group, action] + rest) == "ve-adrive api " + group + " " + action
    ensures PathOf(catalogs, "byted-tos", []) == "tos" && PathOf(catalogs, "ve-tos", []) == "ve-tos"
    ensures PathOf(catalogs, "ve-adrive", []) == "ve-adrive"
  {
  }

  /** On a whole command line: the leaf behind the tool is recovered, whatever option and value precede the tool. */
  lemma {:induction false} LeafBehindOption(table: OptionTable, catalogs: Catalogs, cli: string, option: string,
                                            value: string, tool: string, rest: seq<string>)
    requires table.Valid() && "--" <= option && option != "--no-color" && option in table.valued
    requires !("-" <= tool) && tool != "byted-tos"
    ensures RecoveredCommandPath(table, catalogs, [cli, option, value, tool] + rest, tool)
            == PathOf(catalogs, tool, Operands(Items(table, rest, 0)))
    ensures RecoveredCommandPath(table, catalogs, [cli], tool) == tool
  {
    ValueIsNoService(table, cli, option, value, tool, rest);
    assert ([cli, option, value, tool] + rest)[4..] == rest;
  }

  lemma {:induction false} LettersAre(c: char)
    ensures 'a' <= c <= 'z' <==> c in "abcdefghijklmnopqrstuvwxyz"
  {
    var all := "abcdefghijklmnopqrstuvwxyz";
    assert forall i :: 0 <= i < 26 ==> all[i] as int == 97 + i;
    assert 'a' <= c <= 'z' ==> all[c as int - 97] == c;
  }

  lemma {:induction false} CapitalsAre(c: char)
    ensures 'A' <= c <= 'Z' <==> c in "ABCDEFGHIJKLMNOPQRSTUVWXYZ"
  {
    var all := "ABCDEFGHIJKLMNOPQRSTUVWXYZ";
    assert forall i :: 0 <= i < 26 ==> all[i] as int == 65 + i;
    assert 'A' <= c <= 'Z' ==> all[c as int - 65] == c;
  }

  lemma {:induction false} DigitsAre(c: char)
    ensures '0' <= c <= '9' <==> c in "0123456789"
  {
    var all := "0123456789";
    assert forall i :: 0 <= i < 10 ==> all[i] as int == 48 + i;
    assert '0' <= c <= '9' ==> all[c as int - 48] == c;
  }

  /** Identifiers are made of ASCII letters, digits, `_` and `-`: no mark of a URL can be in one. */
  lemma {:induction false} IdentifiersAre(token: string)
    ensures IsIdentifier(token)
            <==> token != "" && forall c :: c in token ==>
                   c in "abcdefghijklmnopqrstuvwxyz" || c in "ABCDEFGHIJKLMNOPQRSTUVWXYZ" || c in "0123456789"
                   || c == '_' || c == '-'
  {
    forall c: char
      ensures IsIdentifierChar(c)
              <==> c in "abcdefghijklmnopqrstuvwxyz" || c in "ABCDEFGHIJKLMNOPQRSTUVWXYZ" || c in "0123456789"
                   || c == '_' || c == '-'
    {
      LettersAre(c);
      CapitalsAre(c);
      DigitsAre(c);
    }
    if IsIdentifier(token) {
      assert forall c :: c in token ==> IsIdentifierChar(c);
    } else if token != "" {
      var i :| 0 <= i < |token| && !IsIdentifierChar(token[i]);
      assert token[i] in token;
    }
  }
}

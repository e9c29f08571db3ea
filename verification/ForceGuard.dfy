/**
 The destructive-command guard of crates/tos/src/registry.rs and the advertised list of commands
 that need `--force`. The capability catalog is a parameter.
 */
module ForceGuard {
  import opened Prelude
  import opened Strings
  import opened CommandTree

  datatype Risk = Low | Medium | High | Critical

  datatype Capability = Capability(command: string, group: string, risk: Risk, supportsForce: bool)

  datatype Effective = Effective(command: string, risk: Risk, supportsForce: bool, curated: bool) {
    /** The guard's test, shared with the advertised list. */
    predicate NeedsForce() {
      supportsForce && (risk.High? || risk.Critical?)
    }
  }

  function CanonicalGroup(name: string): string {
    if name == "storgeclass" then "storageclass"
    else if name == "ve-tos storgeclass" then "ve-tos storageclass"
    else name
  }

  function FirstCapability(catalog: seq<Capability>, command: string, group: string): (found: Option<Capability>)
    ensures found.Some? ==> found.value in catalog && (found.value.command == command || found.value.group == group)
    ensures found.None? ==>
              forall i :: 0 <= i < |catalog| ==> catalog[i].command != command && catalog[i].group != group
  {
    if catalog == [] then None
    else if catalog[0].command == command || catalog[0].group == group then Some(catalog[0])
    else FirstCapability(catalog[1..], command, group)
  }

  function FindCapability(catalog: seq<Capability>, command: string): Option<Capability> {
    var normalized := NormalizeCommand(command);
    FirstCapability(catalog, normalized, CanonicalGroup(normalized))
  }

  /** `infer_leaf_risk`. */
  function InferLeafRisk(group: string, action: string): Risk {
    var verb := action[..IndexOf(action, '-')];
    if group == "rb" && action == "rb" then Critical
    else if verb in {"destroy", "purge"} then Critical
    else if action == "batch-delete" || verb in {"delete", "remove", "rm", "drop"} then Critical
    else if verb in {"abort", "disable"} then High
    else if group in {"rb", "rm"} then Critical
    else if group in {"mv", "sync"} then High
    else if verb in {"create", "put", "set", "set-meta", "set-acl", "set-tagging", "set-time", "set-expires",
                     "set-retention", "upload", "form-upload", "copy", "modify", "rename", "append",
                     "seal-append", "fetch", "create-fetch-task", "open", "close", "complete"} then Medium
    else if group in {"cp", "mv", "sync", "mb", "restore", "api", "config"} then Medium
    else Low
  }

  /** What a normalised command resolves to when no capability is curated for it. */
  function Inferred(normalized: string): Option<Effective> {
    var words := Words(normalized, IsSpace);
    if |words| < 2 then None
    else
      var risk := InferLeafRisk(words[1], if |words| > 2 then words[2] else words[1]);
      Some(Effective(normalized, risk, risk.High? || risk.Critical?, false))
  }

  /** `resolve_effective_capability`. */
  function Resolve(catalog: seq<Capability>, command: string): Option<Effective> {
    match FindCapability(catalog, command)
    case Some(entry) => Some(Effective(entry.command, entry.risk, entry.supportsForce, true))
    case None => Inferred(NormalizeCommand(command))
  }

  datatype Violation = Violation(command: string, risk: Risk)

  /** `enforce_registry_guards`; the terminal flag of the source is not consulted. */
  function EnforceGuards(catalog: seq<Capability>, command: string, force: bool): Result<(), Violation> {
    match Resolve(catalog, command)
    case None => Success(())
    case Some(effective) =>
      if !effective.supportsForce then Success(())
      else if !(effective.risk.High? || effective.risk.Critical?) then Success(())
      else if force then Success(())
      else Failure(Violation(effective.command, effective.risk))
  }

  predicate Rejected(catalog: seq<Capability>, command: string) {
    EnforceGuards(catalog, command, false).Failure?
  }

  // ----- The advertised list -----

  /** Lexicographic order of strings. */
  predicate Precedes(a: string, b: string) {
    a == "" || (b != "" && (a[0] < b[0] || (a[0] == b[0] && Precedes(a[1..], b[1..]))))
  }

  lemma {:induction false} FirstAgrees(a: string, b: string, k: nat)
    requires 0 < k <= |a| && k <= |b| && a[..k] == b[..k]
    ensures a[0] == b[0]
  {
    assert a[..k][0] == a[0] && b[..k][0] == b[0];
  }

  /** One text precedes another when it is its beginning, or smaller where the two first differ. */
  lemma {:induction false} PrecedesIff(a: string, b: string)
    ensures Precedes(a, b)
            <==> a <= b || exists k :: 0 <= k < |a| && k < |b| && a[..k] == b[..k] && a[k] < b[k]
  {
    if a != "" && b != "" && a[0] == b[0] {
      PrecedesIff(a[1..], b[1..]);
      if k :| 0 <= k < |a[1..]| && k < |b[1..]| && a[1..][..k] == b[1..][..k] && a[1..][k] < b[1..][k] {
        assert a[..k + 1] == [a[0]] + a[1..][..k] && b[..k + 1] == [b[0]] + b[1..][..k];
      }
      if k :| 0 <= k < |a| && k < |b| && a[..k] == b[..k] && a[k] < b[k] {
        assert k > 0 && a[1..][..k - 1] == a[..k][1..] && b[1..][..k - 1] == b[..k][1..];
        assert a[1..][k - 1] < b[1..][k - 1];
      }
    } else if a != "" && b != "" && a[0] < b[0] {
      assert a[..0] == b[..0];
    } else if k :| 0 < k < |a| && k < |b| && a[..k] == b[..k] && a[k] < b[k] {
      FirstAgrees(a, b, k);
      assert false;
    }
  }

  lemma {:induction false} PrecedesIsTotal(a: string, b: string)
    ensures Precedes(a, b) || Precedes(b, a)
  {
    if a != "" && b != "" && a[0] == b[0] {
      PrecedesIsTotal(a[1..], b[1..]);
    }
  }

  lemma {:induction false} PrecedesIsTransitive(a: string, b: string, c: string)
    requires Precedes(a, b) && Precedes(b, c)
    ensures Precedes(a, c)
  {
    if a != "" && a[0] == b[0] && b[0] == c[0] {
      PrecedesIsTransitive(a[1..], b[1..], c[1..]);
    }
  }

  lemma {:induction false} PrecedesIsAntisymmetric(a: string, b: string)
    requires Precedes(a, b) && Precedes(b, a)
    ensures a == b
  {
    if a != "" {
      PrecedesIsAntisymmetric(a[1..], b[1..]);
      assert a == [a[0]] + a[1..] && b == [b[0]] + b[1..];
    }
  }

  /** The leaves that need force, resolved, in tree order. */
  function Accumulated(catalog: seq<Capability>, leaves: seq<string>): seq<Effective> {
    if leaves == [] then []
    else if Resolve(catalog, leaves[0]).Some? && Resolve(catalog, leaves[0]).value.NeedsForce() then
      [Resolve(catalog, leaves[0]).value] + Accumulated(catalog, leaves[1..])
    else Accumulated(catalog, leaves[1..])
  }

  function InsertByCommand(e: Effective, sorted: seq<Effective>): seq<Effective> {
    if sorted == [] || Precedes(e.command, sorted[0].command) then [e] + sorted
    else [sorted[0]] + InsertByCommand(e, sorted[1..])
  }

  /** `sort_by` on the command; stable. */
  function SortByCommand(entries: seq<Effective>): seq<Effective> {
    if entries == [] then [] else InsertByCommand(entries[0], SortByCommand(entries[1..]))
  }

  /** `dedup_by` on the command: of neighbours with one command the first stays. */
  function DedupByCommand(entries: seq<Effective>): (r: seq<Effective>)
    ensures entries != [] ==> r != [] && r[0] == entries[0]
    decreases |entries|
  {
    if |entries| < 2 then entries
    else if entries[0].command == entries[1].command then DedupByCommand([entries[0]] + entries[2..])
    else [entries[0]] + DedupByCommand(entries[1..])
  }

  /** `force_required_commands` over the leaf commands of the tree. */
  function ForceRequired(catalog: seq<Capability>, leaves: seq<string>): seq<Effective> {
    DedupByCommand(SortByCommand(Accumulated(catalog, leaves)))
  }

  method ForceRequiredCommands(catalog: seq<Capability>, leaves: seq<string>) returns (required: seq<Effective>)
    ensures required == ForceRequired(catalog, leaves)
  {
    hide Resolve, DedupByCommand, SortByCommand;
    var acc: seq<Effective> := [];
    var i := 0;
    assert leaves[0..] == leaves;
    while i < |leaves|
      invariant i <= |leaves|
      invariant Accumulated(catalog, leaves) == acc + Accumulated(catalog, leaves[i..])
    {
      assert leaves[i..][1..] == leaves[i + 1..];
      var effective := Resolve(catalog, leaves[i]);
      if effective.Some? && effective.value.NeedsForce() {
        acc := acc + [effective.value];
      }
      i := i + 1;
    }
    assert leaves[i..] == [] && Accumulated(catalog, leaves) == acc;
    return DedupByCommand(SortByCommand(acc));
  }

  // ----- Sorted, free of duplicates, complete -----

  ghost predicate Ascending(entries: seq<Effective>) {
    forall i, j :: 0 <= i < j < |entries| ==> Precedes(entries[i].command, entries[j].command)
  }

  lemma {:induction false} AscendingCons(e: Effective, entries: seq<Effective>)
    requires Ascending(entries) && (entries != [] ==> Precedes(e.command, entries[0].command))
    ensures Ascending([e] + entries)
  {
    var all := [e] + entries;
    forall i, j | 0 <= i < j < |all|
      ensures Precedes(all[i].command, all[j].command)
    {
      assert all[j] == entries[j - 1];
      if i > 0 {
        assert all[i] == entries[i - 1];
      } else if j > 1 {
        PrecedesIsTransitive(e.command, entries[0].command, entries[j - 1].command);
      }
    }
  }

  lemma {:induction false} InsertSorts(e: Effective, sorted: seq<Effective>)
    requires Ascending(sorted)
    ensures Ascending(InsertByCommand(e, sorted))
    ensures forall x :: x in InsertByCommand(e, sorted) <==> x == e || x in sorted
    ensures InsertByCommand(e, sorted)[0] == e || (sorted != [] && InsertByCommand(e, sorted)[0] == sorted[0])
  {
    if sorted == [] || Precedes(e.command, sorted[0].command) {
      AscendingCons(e, sorted);
    } else {
      var rest := sorted[1..];
      InsertSorts(e, rest);
      PrecedesIsTotal(e.command, sorted[0].command);
      if rest != [] {
        assert rest[0] == sorted[1];
      }
      AscendingCons(sorted[0], InsertByCommand(e, rest));
      assert sorted == [sorted[0]] + rest;
    }
  }

  lemma {:induction false} SortSorts(entries: seq<Effective>)
    ensures Ascending(SortByCommand(entries))
    ensures forall x :: x in SortByCommand(entries) <==> x in entries
  {
    if entries != [] {
      SortSorts(entries[1..]);
      InsertSorts(entries[0], SortByCommand(entries[1..]));
      assert entries == [entries[0]] + entries[1..];
    }
  }

  /** Strictly ascending commands. */
  ghost predicate Strict(entries: seq<Effective>) {
    forall i, j :: 0 <= i < j < |entries| ==>
      Precedes(entries[i].command, entries[j].command) && entries[i].command != entries[j].command
  }

  ghost predicate HasCommand(entries: seq<Effective>, command: string) {
    exists i :: 0 <= i < |entries| && entries[i].command == command
  }

  lemma {:induction false} StrictCons(e: Effective, entries: seq<Effective>)
    requires Strict(entries)
    requires entries != [] ==> Precedes(e.command, entries[0].command) && e.command != entries[0].command
    ensures Strict([e] + entries)
  {
    var all := [e] + entries;
    assert Ascending(entries);
    AscendingCons(e, entries);
    forall i, j | 0 <= i < j < |all|
      ensures all[i].command != all[j].command
    {
      assert all[j] == entries[j - 1];
      if i > 0 {
        assert all[i] == entries[i - 1];
      } else if j > 1 && e.command == entries[j - 1].command {
        PrecedesIsAntisymmetric(e.command, entries[0].command);
        assert false;
      }
    }
  }

  lemma {:induction false} DedupSorts(entries: seq<Effective>)
    requires Ascending(entries)
    ensures Strict(DedupByCommand(entries))
    ensures forall x :: x in DedupByCommand(entries) ==> x in entries
    ensures forall command :: HasCommand(DedupByCommand(entries), command) <==> HasCommand(entries, command)
    decreases |entries|
  {
    if |entries| >= 2 {
      var rest := entries[1..];
      if entries[0].command == entries[1].command {
        var shorter := [entries[0]] + entries[2..];
        assert forall k :: 0 < k < |shorter| ==> shorter[k] == entries[k + 1];
        DedupSorts(shorter);
        assert entries == [entries[0], entries[1]] + entries[2..];
        forall command
          ensures HasCommand(shorter, command) <==> HasCommand(entries, command)
        {
          SameCommands(entries, shorter, command);
        }
      } else {
        DedupSorts(rest);
        assert rest[0] == entries[1];
        StrictCons(entries[0], DedupByCommand(rest));
        assert entries == [entries[0]] + rest;
        forall command
          ensures HasCommand(DedupByCommand(entries), command) <==> HasCommand(entries, command)
        {
          HasCommandCons(entries[0], rest, command);
          HasCommandCons(entries[0], DedupByCommand(rest), command);
        }
      }
    }
  }

  lemma {:induction false} HasCommandCons(e: Effective, entries: seq<Effective>, command: string)
    ensures HasCommand([e] + entries, command) <==> e.command == command || HasCommand(entries, command)
  {
    var all := [e] + entries;
    if HasCommand(entries, command) {
      var i :| 0 <= i < |entries| && entries[i].command == command;
      assert all[i + 1].command == command;
    }
    if e.command == command {
      assert all[0].command == command;
    }
    if HasCommand(all, command) {
      var i :| 0 <= i < |all| && all[i].command == command;
      assert i > 0 ==> entries[i - 1].command == command;
    }
  }

  lemma {:induction false} SameCommands(entries: seq<Effective>, shorter: seq<Effective>, command: string)
    requires |entries| >= 2 && shorter == [entries[0]] + entries[2..]
    requires entries[0].command == entries[1].command
    ensures HasCommand(shorter, command) <==> HasCommand(entries, command)
  {
    assert entries == [entries[0]] + ([entries[1]] + entries[2..]);
    HasCommandCons(entries[0], [entries[1]] + entries[2..], command);
    HasCommandCons(entries[1], entries[2..], command);
    HasCommandCons(entries[0], entries[2..], command);
  }

  lemma {:induction false} AccumulatedIs(catalog: seq<Capability>, leaves: seq<string>)
    ensures forall x :: x in Accumulated(catalog, leaves) <==>
              exists i :: 0 <= i < |leaves| && Resolve(catalog, leaves[i]) == Some(x) && x.NeedsForce()
  {
    hide Resolve;
    if leaves != [] {
      var rest := leaves[1..];
      AccumulatedIs(catalog, rest);
      forall x
        ensures x in Accumulated(catalog, leaves) <==>
                  exists i :: 0 <= i < |leaves| && Resolve(catalog, leaves[i]) == Some(x) && x.NeedsForce()
      {
        if x in Accumulated(catalog, rest) {
          var i :| 0 <= i < |rest| && Resolve(catalog, rest[i]) == Some(x) && x.NeedsForce();
          assert leaves[i + 1] == rest[i];
        }
        if i :| 0 <= i < |leaves| && Resolve(catalog, leaves[i]) == Some(x) && x.NeedsForce() {
          assert i > 0 ==> rest[i - 1] == leaves[i];
        }
      }
    }
  }

  /** The advertised list holds exactly the resolved commands of the leaves that need force, strictly sorted. */
  lemma {:induction false} ListIs(catalog: seq<Capability>, leaves: seq<string>)
    ensures Strict(ForceRequired(catalog, leaves))
    ensures forall x :: x in ForceRequired(catalog, leaves) ==>
              exists i :: 0 <= i < |leaves| && Resolve(catalog, leaves[i]) == Some(x) && x.NeedsForce()
    ensures forall i :: 0 <= i < |leaves| && Resolve(catalog, leaves[i]).Some?
                        && Resolve(catalog, leaves[i]).value.NeedsForce() ==>
              HasCommand(ForceRequired(catalog, leaves), Resolve(catalog, leaves[i]).value.command)
  {
    hide Resolve;
    var acc := Accumulated(catalog, leaves);
    AccumulatedIs(catalog, leaves);
    SortSorts(acc);
    DedupSorts(SortByCommand(acc));
    forall i | 0 <= i < |leaves| && Resolve(catalog, leaves[i]).Some?
               && Resolve(catalog, leaves[i]).value.NeedsForce()
      ensures HasCommand(ForceRequired(catalog, leaves), Resolve(catalog, leaves[i]).value.command)
    {
      var x := Resolve(catalog, leaves[i]).value;
      assert x in SortByCommand(acc);
      assert HasCommand(SortByCommand(acc), x.command);
    }
  }

  // ----- Guard and list agree -----

  /** Curated commands are unique, normalised paths of at least two words; groups hold no blank. */
  ghost predicate WellFormed(catalog: seq<Capability>) {
    && (forall i, j :: 0 <= i < j < |catalog| ==> catalog[i].command != catalog[j].command)
    && (forall i :: 0 <= i < |catalog| ==>
          && NormalizeCommand(catalog[i].command) == catalog[i].command
          && ' ' in catalog[i].command
          && ' ' !in catalog[i].group)
  }

  /** The legacy spelling is mapped alike with and without the tool in front of the group. */
  lemma {:induction false} CanonicalGroupIs(group: string)
    requires ' ' !in group
    ensures CanonicalGroup(group) == if group == "storgeclass" then "storageclass" else group
    ensures CanonicalGroup("ve-tos " + group) == "ve-tos " + CanonicalGroup(group)
  {
    assert "ve-tos storgeclass"[6] == ' ' && "ve-tos storgeclass"[7..] == "storgeclass";
    assert ("ve-tos " + group)[7..] == group;
    assert "ve-tos " + "storgeclass" == "ve-tos storgeclass" && "ve-tos " + "storageclass" == "ve-tos storageclass";
  }

  lemma {:induction false} CanonicalGroupKeepsBlank(name: string)
    requires ' ' in name
    ensures ' ' in CanonicalGroup(name)
  {
  }

  lemma {:induction false} FindsOwnCommand(catalog: seq<Capability>, entry: Capability)
    requires WellFormed(catalog) && entry in catalog
    ensures FindCapability(catalog, entry.command) == Some(entry)
  {
    CanonicalGroupKeepsBlank(entry.command);
    var found := FindCapability(catalog, entry.command);
    assert found.Some?;
    assert found.value.group != CanonicalGroup(entry.command);
    var i :| 0 <= i < |catalog| && catalog[i] == entry;
    var j :| 0 <= j < |catalog| && catalog[j] == found.value;
  }

  /** Resolution is idempotent: what a command resolves to resolves to itself. */
  lemma {:induction false} ResolveIsIdempotent(catalog: seq<Capability>, command: string)
    requires WellFormed(catalog) && Resolve(catalog, command).Some?
    ensures Resolve(catalog, Resolve(catalog, command).value.command) == Resolve(catalog, command)
  {
    hide InferLeafRisk;
    match FindCapability(catalog, command)
    case Some(entry) => FindsOwnCommand(catalog, entry);
    case None => NormalizeIsIdempotent(command);
  }

  /** Two commands that resolve to one command path resolve to the same capability. */
  lemma {:induction false} ResolveByCommand(catalog: seq<Capability>, a: string, b: string)
    requires WellFormed(catalog) && Resolve(catalog, a).Some? && Resolve(catalog, b).Some?
    requires Resolve(catalog, a).value.command == Resolve(catalog, b).value.command
    ensures Resolve(catalog, a) == Resolve(catalog, b)
  {
    hide Resolve;
    ResolveIsIdempotent(catalog, a);
    ResolveIsIdempotent(catalog, b);
  }

  lemma {:induction false} RejectedIff(catalog: seq<Capability>, command: string)
    ensures Rejected(catalog, command)
            <==> Resolve(catalog, command).Some? && Resolve(catalog, command).value.NeedsForce()
    ensures EnforceGuards(catalog, command, true).Success?
  {
  }

  /** A leaf is rejected without `--force` exactly when its resolved command is advertised. */
  lemma {:induction false} GuardMatchesList(catalog: seq<Capability>, leaves: seq<string>, i: nat)
    requires WellFormed(catalog) && i < |leaves|
    ensures Rejected(catalog, leaves[i])
            <==> Resolve(catalog, leaves[i]).Some?
                 && HasCommand(ForceRequired(catalog, leaves), Resolve(catalog, leaves[i]).value.command)
  {
    hide Resolve, ForceRequired, Rejected;
    ListIs(catalog, leaves);
    RejectedIff(catalog, leaves[i]);
    var required := ForceRequired(catalog, leaves);
    if Resolve(catalog, leaves[i]).Some? && HasCommand(required, Resolve(catalog, leaves[i]).value.command) {
      var k :| 0 <= k < |required| && required[k].command == Resolve(catalog, leaves[i]).value.command;
      assert required[k] in required;
      var j :| 0 <= j < |leaves| && Resolve(catalog, leaves[j]) == Some(required[k]) && required[k].NeedsForce();
      ResolveByCommand(catalog, leaves[i], leaves[j]);
    }
  }

  /** Every advertised command is itself rejected without `--force`. */
  lemma {:induction false} ListedAreRejected(catalog: seq<Capability>, leaves: seq<string>, k: nat)
    requires WellFormed(catalog) && k < |ForceRequired(catalog, leaves)|
    ensures Rejected(catalog, ForceRequired(catalog, leaves)[k].command)
  {
    hide Resolve, ForceRequired, Rejected;
    ListIs(catalog, leaves);
    var x := ForceRequired(catalog, leaves)[k];
    assert x in ForceRequired(catalog, leaves);
    var j :| 0 <= j < |leaves| && Resolve(catalog, leaves[j]) == Some(x) && x.NeedsForce();
    ResolveIsIdempotent(catalog, leaves[j]);
    RejectedIff(catalog, x.command);
  }

  // ----- What the guard does to a command, from the catalog and the command alone -----

  /** A curated command is stopped without `--force` exactly when its row is destructive and supports force. */
  lemma {:induction false} CuratedGuard(catalog: seq<Capability>, entry: Capability, force: bool)
    requires WellFormed(catalog) && entry in catalog
    ensures EnforceGuards(catalog, entry.command, force)
            == if entry.supportsForce && (entry.risk == High || entry.risk == Critical) && !force
               then Failure(Violation(entry.command, entry.risk))
               else Success(())
  {
    FindsOwnCommand(catalog, entry);
  }

  /** And a curated leaf is in the list exactly then, with its own risk. */
  lemma {:induction false} CuratedList(catalog: seq<Capability>, leaves: seq<string>, entry: Capability)
    requires WellFormed(catalog) && entry in catalog && entry.command in leaves
    ensures HasCommand(ForceRequired(catalog, leaves), entry.command)
            <==> entry.supportsForce && (entry.risk == High || entry.risk == Critical)
    ensures forall x :: x in ForceRequired(catalog, leaves) && x.command == entry.command ==>
              x == Effective(entry.command, entry.risk, true, true)
  {
    hide ForceRequired;
    FindsOwnCommand(catalog, entry);
    ListIs(catalog, leaves);
    var effective := Effective(entry.command, entry.risk, entry.supportsForce, true);
    assert Resolve(catalog, entry.command) == Some(effective);
    hide Resolve;
    var i :| 0 <= i < |leaves| && leaves[i] == entry.command;
    forall x | x in ForceRequired(catalog, leaves) && x.command == entry.command
      ensures x == effective && x.NeedsForce()
    {
      var j :| 0 <= j < |leaves| && Resolve(catalog, leaves[j]) == Some(x) && x.NeedsForce();
      ResolveByCommand(catalog, leaves[i], leaves[j]);
    }
    if HasCommand(ForceRequired(catalog, leaves), entry.command) {
      var k :| 0 <= k < |ForceRequired(catalog, leaves)| && ForceRequired(catalog, leaves)[k].command == entry.command;
      assert ForceRequired(catalog, leaves)[k] in ForceRequired(catalog, leaves);
    }
  }

  /** The verb of an action: what stands before its first dash. */
  function Verb(action: string): (verb: string)
    ensures '-' !in verb && (verb == action || exists rest :: action == verb + "-" + rest)
  {
    var n := IndexOf(action, '-');
    assert n < |action| ==> action == action[..n] + "-" + action[n + 1..];
    assert n == |action| ==> action[..n] == action;
    action[..n]
  }

  /**
   Risks of commands that nobody curated. Deleting, dropping, removing, destroying and purging is
   critical, wherever it is asked for; the groups that remove are critical too, unless the verb only
   aborts or disables, which is high, as moving and syncing is.
   */
  lemma {:induction false} InferredRisk(group: string, action: string)
    ensures var verb := Verb(action);
            var erases := action == "batch-delete"
                          || verb in {"delete", "drop", "remove", "rm", "destroy", "purge"};
            var stops := verb == "abort" || verb == "disable";
            && (InferLeafRisk(group, action) == Critical
                <==> erases || (!stops && (group == "rb" || group == "rm")))
            && (InferLeafRisk(group, action) == High
                <==> !erases && (stops || group == "mv" || group == "sync"))
  {
  }

  /**
   The other risks. A verb holds no dash, so the listed actions with one never match: an upload by form
   or a sealing append is low.
   */
  lemma {:induction false} InferredMedium(group: string, action: string)
    requires InferLeafRisk(group, action) != Critical && InferLeafRisk(group, action) != High
    ensures InferLeafRisk(group, action) == Medium
            <==> Verb(action) in {"create", "put", "set", "upload", "copy", "modify", "rename", "append", "fetch",
                                  "open", "close", "complete"}
                 || group in {"cp", "mb", "restore", "api", "config"}
  {
    var verb := Verb(action);
    var settings := {"set-meta", "set-acl", "set-tagging", "set-time", "set-expires", "set-retention"};
    assert forall listed :: listed in settings ==> listed[3] == '-';
    assert "form-upload"[4] == '-' && "seal-append"[4] == '-' && "create-fetch-task"[6] == '-';
  }

  /** An uncurated command is stopped exactly when its inferred risk is destructive, which is also reported. */
  lemma {:induction false} UncuratedGuard(catalog: seq<Capability>, command: string, force: bool)
    requires FindCapability(catalog, command).None?
    ensures var words := Words(NormalizeCommand(command), IsSpace);
            EnforceGuards(catalog, command, force)
            == if |words| < 2 then Success(())
               else
                 var risk := InferLeafRisk(words[1], if |words| > 2 then words[2] else words[1]);
                 if (risk == High || risk == Critical) && !force
                 then Failure(Violation(NormalizeCommand(command), risk))
                 else Success(())
  {
  }

  /** A command that nobody curated is gated exactly by its action's verb or its group. */
  lemma {:induction false} UncuratedIsGatedIff(catalog: seq<Capability>, command: string)
    requires FindCapability(catalog, command).None?
    ensures var words := Words(NormalizeCommand(command), IsSpace);
            Rejected(catalog, command)
            <==> && |words| >= 2
                 && var action := if |words| > 2 then words[2] else words[1];
                    || Verb(action) in {"destroy", "purge", "delete", "remove", "rm", "drop", "abort", "disable"}
                    || action == "batch-delete"
                    || words[1] in {"rb", "rm", "mv", "sync"}
  {
    hide InferLeafRisk, FindCapability, NormalizeCommand, Verb, Words;
    UncuratedGuard(catalog, command, false);
    var words := Words(NormalizeCommand(command), IsSpace);
    if |words| >= 2 {
      InferredRisk(words[1], if |words| > 2 then words[2] else words[1]);
    }
  }

  lemma {:induction false} FindOneWord(catalog: seq<Capability>, word: string)
    requires word != "" && NoSpace(word, IsSpace)
    ensures FindCapability(catalog, word) == FirstCapability(catalog, word, CanonicalGroup(word)) && ' ' !in word
  {
    OneWordIsNormal(word);
  }

  lemma {:induction false} LegacyIsWord()
    ensures NoSpace("storgeclass", IsSpace) && CanonicalGroup("storgeclass") == "storageclass"
  {
  }

  /** A bare group name stands for the first row of that group, under either spelling. */
  lemma {:induction false} GroupResolves(catalog: seq<Capability>, group: string, i: nat)
    requires WellFormed(catalog) && i < |catalog| && catalog[i].group == group
    requires forall j :: 0 <= j < i ==> catalog[j].group != group
    requires group != "" && NoSpace(group, IsSpace) && group != "storgeclass"
    ensures FindCapability(catalog, group) == Some(catalog[i])
    ensures group == "storageclass" ==> FindCapability(catalog, "storgeclass") == Some(catalog[i])
  {
    hide FindCapability, NoSpace, IsSpace, NormalizeCommand, FirstCapability;
    FindOneWord(catalog, group);
    FirstOfGroup(catalog, group, group, i);
    if group == "storageclass" {
      LegacyIsWord();
      FindOneWord(catalog, "storgeclass");
      FirstOfGroup(catalog, "storgeclass", group, i);
    } else {
      assert group != "ve-tos storgeclass" by {
        assert "ve-tos storgeclass"[6] == ' ';
      }
    }
  }

  lemma {:induction false} OneWordIsNormal(word: string)
    requires word != "" && NoSpace(word, IsSpace)
    ensures NormalizeCommand(word) == word && ' ' !in word
  {
    assert word + "" == word;
    WordsOfWord(word, "", IsSpace);
    assert Words("", IsSpace) == [];
    assert IsSpace(' ');
  }

  lemma {:induction false} FirstOfGroup(catalog: seq<Capability>, command: string, group: string, i: nat)
    requires i < |catalog| && catalog[i].group == group
    requires forall j :: 0 <= j < i ==> catalog[j].group != group
    requires ' ' !in command && forall j :: 0 <= j < |catalog| ==> ' ' in catalog[j].command
    ensures FirstCapability(catalog, command, group) == Some(catalog[i])
  {
    if i > 0 {
      assert forall j :: 0 <= j < |catalog| - 1 ==> catalog[1..][j] == catalog[j + 1];
      FirstOfGroup(catalog[1..], command, group, i - 1);
    }
  }
}

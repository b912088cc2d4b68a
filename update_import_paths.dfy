/**
 * The import-path rule: for each top-level import of a file whose relative
 * path leads into another module, one modification that points the import at
 * that module's public entry; then the modifications are spliced into the text.
 */
module UpdateImportPathsRule {
  import opened Wrappers
  import opened Syntax
  import opened EditApplier
  import opened ImportClassifier

  /** The path literal a rewritten import carries: the target's public entry in single quotes. */
  function RewrittenLiteral(targetModule: string, host: Host): string
  {
    "'" + host.convertModulePathToPublicAPIImport(targetModule) + "'"
  }

  /**
   * The replacement text: the rewritten literal, then the statement's
   * semicolon, three characters longer than the public entry.
   */
  function PublicApiContent(targetModule: string, host: Host): (r: string)
    ensures r == RewrittenLiteral(targetModule, host) + ";"
    ensures |r| == |host.convertModulePathToPublicAPIImport(targetModule)| + 3
  {
    "'" + host.convertModulePathToPublicAPIImport(targetModule) + "';"
  }

  /**
   * The span starts one past the literal's full start (skipping the one
   * space of trivia after `from`) and ends one past its end (taking in the `;`).
   */
  function ModificationFor(importNode: Node, targetModule: string, host: Host): (r: Modification)
    ensures r.startPosition == importNode.pos + 1 && r.endPosition == importNode.end + 1
    ensures r.content == RewrittenLiteral(targetModule, host) + ";"
  {
    Modification(importNode.pos + 1, importNode.end + 1, PublicApiContent(targetModule, host))
  }

  /** A statement with a string-literal child whose text starts with `'.`. */
  predicate IsRelativeImport(stmt: Statement)
  {
    LiteralOf(stmt).Some? && !IsThirdPartyLibImport(LiteralOf(stmt).value)
  }

  /** The module that owns the target of a relative import. */
  function TargetModule(stmt: Statement, filePath: string, host: Host): Result<string, Error>
    requires IsRelativeImport(stmt)
  {
    GetModulePathFromImport(LiteralOf(stmt).value.text, filePath, host)
  }

  /** A relative import whose target is owned by a module other than `moduleOfFile`. */
  predicate IsCrossModuleImport(stmt: Statement, moduleOfFile: string, filePath: string, host: Host)
  {
    && IsRelativeImport(stmt)
    && TargetModule(stmt, filePath, host).Success?
    && TargetModule(stmt, filePath, host).value != moduleOfFile
  }

  /** A relative import whose target no module owns. */
  predicate IsUnresolvedImport(stmt: Statement, filePath: string, host: Host)
  {
    IsRelativeImport(stmt) && TargetModule(stmt, filePath, host).Failure?
  }

  /**
   * What `updatePaths` does with one top-level statement. It yields a
   * modification exactly when the statement is a cross-module import, and
   * that modification points the literal at the target's public entry.
   * Third-party, intra-module and non-import statements yield nothing. It
   * aborts exactly on an unresolved relative import, with an error naming
   * the literal and the file.
   */
  function StatementModification(stmt: Statement, moduleOfFile: string, filePath: string, host: Host)
    : (r: Result<Option<Modification>, Error>)
    ensures r.Failure? <==> IsUnresolvedImport(stmt, filePath, host)
    ensures r.Failure? ==> r.error == NoModuleForImport(LiteralOf(stmt).value.text, filePath)
    ensures r == Success(None)
            <==> !IsCrossModuleImport(stmt, moduleOfFile, filePath, host) && !IsUnresolvedImport(stmt, filePath, host)
    ensures IsCrossModuleImport(stmt, moduleOfFile, filePath, host) ==>
              r == Success(Some(ModificationFor(LiteralOf(stmt).value, TargetModule(stmt, filePath, host).value, host)))
  {
    match LiteralOf(stmt)
    case None => Success(None)
    case Some(importNode) =>
      if IsThirdPartyLibImport(importNode) then Success(None)
      else
        match ImportsForeignModuleCode(importNode, moduleOfFile, filePath, host)
        case Failure(e) => Failure(e)
        case Success(foreign) =>
          if !foreign then Success(None)
          else
            match GetModulePathFromImport(importNode.text, filePath, host)
            case Failure(e) => Failure(e)
            case Success(target) => Success(Some(ModificationFor(importNode, target, host)))
  }

  /** What one statement contributes to the visit. */
  type Outcome = Result<Option<Modification>, Error>

  /** An outcome that carries a modification. */
  predicate Yields(outcome: Outcome)
  {
    outcome.Success? && outcome.value.Some?
  }

  /**
   * The visit over the statements' outcomes, in order: the first abort
   * decides, otherwise each outcome contributes its modification, if any.
   */
  function Gather(outcomes: seq<Outcome>): Result<seq<Modification>, Error>
    decreases |outcomes|
  {
    if outcomes == [] then Success([])
    else
      match Gather(outcomes[..|outcomes| - 1])
      case Failure(e) => Failure(e)
      case Success(ms) =>
        match outcomes[|outcomes| - 1]
        case Failure(e) => Failure(e)
        case Success(None) => Success(ms)
        case Success(Some(m)) => Success(ms + [m])
  }

  /** Once a prefix of the outcomes aborts, the whole visit aborts with the same error. */
  lemma {:induction false} GatherFailureIsFinal(outcomes: seq<Outcome>, i: nat)
    requires i <= |outcomes| && Gather(outcomes[..i]).Failure?
    ensures Gather(outcomes) == Gather(outcomes[..i])
    decreases |outcomes| - i
  {
    if i == |outcomes| {
      assert outcomes[..i] == outcomes;
    } else {
      var next := outcomes[..i + 1];
      assert next[..|next| - 1] == outcomes[..i];
      GatherFailureIsFinal(outcomes, i + 1);
    }
  }

  /**
   * On success every outcome succeeded, and the modifications are exactly
   * those the outcomes carry, in order: `idx` maps each modification to its
   * outcome, strictly increasing, and takes in every outcome that carries one.
   */
  lemma {:induction false} GatherOrigins(outcomes: seq<Outcome>) returns (idx: seq<nat>)
    requires Gather(outcomes).Success?
    ensures |idx| == |Gather(outcomes).value|
    ensures forall k :: 0 <= k < |idx| ==>
      idx[k] < |outcomes| && outcomes[idx[k]] == Success(Some(Gather(outcomes).value[k]))
    ensures forall k, l :: 0 <= k < l < |idx| ==> idx[k] < idx[l]
    ensures forall i :: 0 <= i < |outcomes| ==> outcomes[i].Success?
    ensures forall i :: 0 <= i < |outcomes| && Yields(outcomes[i]) ==> i in idx
    decreases |outcomes|
  {
    if outcomes == [] {
      idx := [];
    } else {
      var n := |outcomes| - 1;
      var prefix := outcomes[..n];
      assert forall i :: 0 <= i < n ==> prefix[i] == outcomes[i];
      var idx' := GatherOrigins(prefix);
      if outcomes[n].value.Some? {
        idx := idx' + [n];
      } else {
        idx := idx';
      }
    }
  }

  /** When the visit aborts, its error is that of the first outcome that aborts. */
  lemma {:induction false} GatherFirstFailure(outcomes: seq<Outcome>) returns (i: nat)
    requires Gather(outcomes).Failure?
    ensures i < |outcomes| && outcomes[i] == Failure(Gather(outcomes).error)
    ensures forall j :: 0 <= j < i ==> outcomes[j].Success?
    decreases |outcomes|
  {
    var n := |outcomes| - 1;
    var prefix := outcomes[..n];
    assert forall j :: 0 <= j < n ==> prefix[j] == outcomes[j];
    if Gather(prefix).Failure? {
      i := GatherFirstFailure(prefix);
    } else {
      var _ := GatherOrigins(prefix);
      i := n;
    }
  }

  /** Outcomes that carry nothing give no modifications. */
  lemma {:induction false} GatherNothing(outcomes: seq<Outcome>)
    requires forall i :: 0 <= i < |outcomes| ==> outcomes[i] == Success(None)
    ensures Gather(outcomes) == Success([])
    decreases |outcomes|
  {
    if outcomes != [] {
      var n := |outcomes| - 1;
      var prefix := outcomes[..n];
      assert forall i :: 0 <= i < n ==> prefix[i] == outcomes[i];
      GatherNothing(prefix);
    }
  }

  /** The outcomes of the top-level statements, in order. */
  function Outcomes(stmts: seq<Statement>, moduleOfFile: string, filePath: string, host: Host): seq<Outcome>
  {
    seq(|stmts|, i requires 0 <= i < |stmts| => StatementModification(stmts[i], moduleOfFile, filePath, host))
  }

  /** The modifications the visit of `stmts` collects, or the first abort. */
  function CollectModifications(stmts: seq<Statement>, moduleOfFile: string, filePath: string, host: Host)
    : Result<seq<Modification>, Error>
  {
    Gather(Outcomes(stmts, moduleOfFile, filePath, host))
  }

  /** What `getImportPathModifications` returns: it first looks up the file's own module. */
  function ImportPathModifications(filePath: string, statements: seq<Statement>, host: Host)
    : Result<seq<Modification>, Error>
  {
    match host.findModule(host.getFolderPath(filePath))
    case None => Failure(NoModuleForFile(filePath))
    case Some(moduleOfFile) => CollectModifications(statements, moduleOfFile, filePath, host)
  }

  /** Once a prefix of the statements aborts, the whole visit aborts with the same error. */
  lemma CollectFailureIsFinal(stmts: seq<Statement>, i: nat, moduleOfFile: string, filePath: string, host: Host)
    requires i <= |stmts| && CollectModifications(stmts[..i], moduleOfFile, filePath, host).Failure?
    ensures CollectModifications(stmts, moduleOfFile, filePath, host)
            == CollectModifications(stmts[..i], moduleOfFile, filePath, host)
  {
    var outcomes := Outcomes(stmts, moduleOfFile, filePath, host);
    assert Outcomes(stmts[..i], moduleOfFile, filePath, host) == outcomes[..i];
    GatherFailureIsFinal(outcomes, i);
  }

  /**
   * On success, the modifications are exactly those of the statements that
   * yield one, in statement order, at most one per statement: `idx` maps each
   * modification to the statement it comes from, strictly increasing, and
   * takes in every statement that yields a modification.
   */
  lemma CollectOrigins(stmts: seq<Statement>, moduleOfFile: string, filePath: string, host: Host)
    returns (idx: seq<nat>)
    requires CollectModifications(stmts, moduleOfFile, filePath, host).Success?
    ensures var ms := CollectModifications(stmts, moduleOfFile, filePath, host).value;
      && |idx| == |ms|
      && (forall k :: 0 <= k < |idx| ==>
            idx[k] < |stmts| && StatementModification(stmts[idx[k]], moduleOfFile, filePath, host) == Success(Some(ms[k])))
      && (forall k, l :: 0 <= k < l < |idx| ==> idx[k] < idx[l])
    ensures forall i :: 0 <= i < |stmts| ==> StatementModification(stmts[i], moduleOfFile, filePath, host).Success?
    ensures forall i :: 0 <= i < |stmts| && Yields(StatementModification(stmts[i], moduleOfFile, filePath, host)) ==> i in idx
  {
    var outcomes := Outcomes(stmts, moduleOfFile, filePath, host);
    idx := GatherOrigins(outcomes);
    forall i | 0 <= i < |stmts| ensures outcomes[i] == StatementModification(stmts[i], moduleOfFile, filePath, host) {}
  }

  /** When the visit aborts, its error is that of the first statement that aborts. */
  lemma CollectFirstFailure(stmts: seq<Statement>, moduleOfFile: string, filePath: string, host: Host)
    returns (i: nat)
    requires CollectModifications(stmts, moduleOfFile, filePath, host).Failure?
    ensures i < |stmts|
    ensures StatementModification(stmts[i], moduleOfFile, filePath, host)
            == Failure(CollectModifications(stmts, moduleOfFile, filePath, host).error)
    ensures forall j :: 0 <= j < i ==> StatementModification(stmts[j], moduleOfFile, filePath, host).Success?
  {
    var outcomes := Outcomes(stmts, moduleOfFile, filePath, host);
    i := GatherFirstFailure(outcomes);
    forall j | 0 <= j < i ensures outcomes[j] == StatementModification(stmts[j], moduleOfFile, filePath, host) {}
  }

  /** When no statement is a cross-module or unresolved import, there is nothing to modify. */
  lemma NoCrossModuleImportsNoModifications(stmts: seq<Statement>, moduleOfFile: string, filePath: string, host: Host)
    requires forall i :: 0 <= i < |stmts| ==>
      !IsCrossModuleImport(stmts[i], moduleOfFile, filePath, host) && !IsUnresolvedImport(stmts[i], filePath, host)
    ensures CollectModifications(stmts, moduleOfFile, filePath, host) == Success([])
  {
    var outcomes := Outcomes(stmts, moduleOfFile, filePath, host);
    forall i | 0 <= i < |outcomes| ensures outcomes[i] == Success(None) {
      assert outcomes[i] == StatementModification(stmts[i], moduleOfFile, filePath, host);
    }
    GatherNothing(outcomes);
  }

  /**
   * The string literals of the import declarations lie in a text of length
   * n, each followed by at least one character (the `;` the span takes in),
   * in document order and without overlapping.
   */
  predicate LiteralSpansOrdered(stmts: seq<Statement>, n: nat)
  {
    && (forall i :: 0 <= i < |stmts| && LiteralOf(stmts[i]).Some? ==>
          LiteralOf(stmts[i]).value.pos <= LiteralOf(stmts[i]).value.end < n)
    && (forall i, j :: 0 <= i < j < |stmts| && LiteralOf(stmts[i]).Some? && LiteralOf(stmts[j]).Some? ==>
          LiteralOf(stmts[i]).value.end <= LiteralOf(stmts[j]).value.pos)
  }

  /** For literals laid out as the parser lays them out, the modifications are ascending and disjoint. */
  lemma ModificationsAscending(
    stmts: seq<Statement>, moduleOfFile: string, filePath: string, host: Host, n: nat)
    requires LiteralSpansOrdered(stmts, n)
    requires CollectModifications(stmts, moduleOfFile, filePath, host).Success?
    ensures Ascending(CollectModifications(stmts, moduleOfFile, filePath, host).value, n)
  {
    var ms := CollectModifications(stmts, moduleOfFile, filePath, host).value;
    var idx := CollectOrigins(stmts, moduleOfFile, filePath, host);
    forall k | 0 <= k < |ms|
      ensures ms[k] == ModificationFor(LiteralOf(stmts[idx[k]]).value, TargetModule(stmts[idx[k]], filePath, host).value, host)
    {
      assert StatementModification(stmts[idx[k]], moduleOfFile, filePath, host) == Success(Some(ms[k]));
    }
  }

  /** `getImportPathModifications`: the own-module lookup, then `updatePaths` on each top-level statement. */
  method GetImportPathModifications(filePath: string, statements: seq<Statement>, host: Host)
    returns (r: Result<seq<Modification>, Error>)
    ensures r == ImportPathModifications(filePath, statements, host)
  {
    var moduleOfFile := host.findModule(host.getFolderPath(filePath));
    if moduleOfFile.None? {
      return Failure(NoModuleForFile(filePath));
    }
    var fileModule := moduleOfFile.value;
    var modifications: seq<Modification> := [];
    var i := 0;
    while i < |statements|
      invariant 0 <= i <= |statements|
      invariant CollectModifications(statements[..i], fileModule, filePath, host) == Success(modifications)
    {
      var node := statements[i];
      ghost var outcomes := Outcomes(statements[..i + 1], fileModule, filePath, host);
      assert outcomes[..i] == Outcomes(statements[..i], fileModule, filePath, host);
      assert outcomes[i] == StatementModification(node, fileModule, filePath, host);
      if node.ImportDeclaration? {
        var importNode := FindStringLiteral(node.children);
        if importNode.Some? && !IsThirdPartyLibImport(importNode.value) {
          var foreign := ImportsForeignModuleCode(importNode.value, fileModule, filePath, host);
          if foreign.Failure? {
            CollectFailureIsFinal(statements, i + 1, fileModule, filePath, host);
            return Failure(foreign.error);
          }
          if foreign.value {
            var target := GetModulePathFromImport(importNode.value.text, filePath, host);
            assert target.Success?;  // the lookup that just succeeded inside ImportsForeignModuleCode
            modifications := modifications + [ModificationFor(importNode.value, target.value, host)];
          }
        }
      }
      i := i + 1;
    }
    assert statements[..i] == statements;
    return Success(modifications);
  }

  /** The text `updateImportPaths` writes back for a file, or the error that aborts the run. */
  function RewrittenText(filePath: string, text: string, statements: seq<Statement>, host: Host)
    : Result<string, Error>
  {
    match ImportPathModifications("." + filePath, statements, host)
    case Failure(e) => Failure(e)
    case Success(ms) => Success(ApplyReversed(text, ms))
  }

  /**
   * The rule for one file: `text` is what the file holds and `statements` its
   * top-level statements as parsed; on success the result is what is written back.
   */
  method UpdateImportPaths(filePath: string, text: string, statements: seq<Statement>, host: Host)
    returns (r: Result<string, Error>)
    ensures r == RewrittenText(filePath, text, statements, host)
  {
    var relativeFilePath := "." + filePath;
    var modifications := GetImportPathModifications(relativeFilePath, statements, host);
    if modifications.Failure? {
      return Failure(modifications.error);
    }
    var source := ApplyModifications(text, modifications.value);
    return Success(source);
  }

  /**
   * For a file parsed as the parser parses, the text written back is the
   * original text with each cross-module literal replaced in one left-to-right
   * rebuild, its length changed by exactly what the modifications add.
   */
  lemma RewrittenTextIsRebuild(filePath: string, text: string, statements: seq<Statement>, host: Host)
    requires LiteralSpansOrdered(statements, |text|)
    requires ImportPathModifications("." + filePath, statements, host).Success?
    ensures var ms := ImportPathModifications("." + filePath, statements, host).value;
      && Ascending(ms, |text|)
      && RewrittenText(filePath, text, statements, host) == Success(Rebuild(text, ms, 0))
  {
    var relativeFilePath := "." + filePath;
    var ms := ImportPathModifications(relativeFilePath, statements, host).value;
    ImportPathModificationsAscending(relativeFilePath, statements, host, |text|);
    assert RewrittenText(filePath, text, statements, host) == Success(ApplyReversed(text, ms));
    ApplyReversedIsRebuild(text, ms);
  }

  /** The file-level form of `ModificationsAscending`, with the file's own module looked up. */
  lemma ImportPathModificationsAscending(filePath: string, statements: seq<Statement>, host: Host, n: nat)
    requires LiteralSpansOrdered(statements, n)
    requires ImportPathModifications(filePath, statements, host).Success?
    ensures Ascending(ImportPathModifications(filePath, statements, host).value, n)
  {
    var moduleOfFile := host.findModule(host.getFolderPath(filePath)).value;
    ModificationsAscending(statements, moduleOfFile, filePath, host, n);
  }

  /** A file whose imports are all third-party or intra-module is written back character for character. */
  lemma NoCrossModuleImportsUnchanged(filePath: string, text: string, statements: seq<Statement>, host: Host)
    requires host.findModule(host.getFolderPath("." + filePath)).Some?
    requires var moduleOfFile := host.findModule(host.getFolderPath("." + filePath)).value;
      forall i :: 0 <= i < |statements| ==>
        !IsCrossModuleImport(statements[i], moduleOfFile, "." + filePath, host)
        && !IsUnresolvedImport(statements[i], "." + filePath, host)
    ensures RewrittenText(filePath, text, statements, host) == Success(text)
  {
    var moduleOfFile := host.findModule(host.getFolderPath("." + filePath)).value;
    NoCrossModuleImportsNoModifications(statements, moduleOfFile, "." + filePath, host);
  }

  /** The host's public entries are never relative paths. */
  ghost predicate PublicApiNotRelative(host: Host)
  {
    forall t :: |host.convertModulePathToPublicAPIImport(t)| == 0 || host.convertModulePathToPublicAPIImport(t)[0] != '.'
  }

  /** A statement whose string literal is one the rule writes. */
  ghost predicate CarriesRewrittenLiteral(stmt: Statement, host: Host)
  {
    LiteralOf(stmt).Some? && exists t :: LiteralOf(stmt).value.text == RewrittenLiteral(t, host)
  }

  /**
   * A literal the rule writes is third-party, as long as public entries are
   * not relative: it opens with `'` followed by the entry's first character,
   * or by the closing `'` when the entry is empty.
   */
  lemma RewrittenLiteralIsThirdParty(targetModule: string, pos: nat, end: nat, host: Host)
    requires PublicApiNotRelative(host)
    ensures IsThirdPartyLibImport(Node(StringLiteral, pos, end, RewrittenLiteral(targetModule, host)))
  {
  }

  /**
   * On a second run, an import the first run rewrote is third-party and
   * yields no modification, as long as public entries are not relative.
   */
  lemma RewrittenImportYieldsNothing(stmt: Statement, moduleOfFile: string, filePath: string, host: Host)
    requires PublicApiNotRelative(host) && CarriesRewrittenLiteral(stmt, host)
    ensures StatementModification(stmt, moduleOfFile, filePath, host) == Success(None)
  {
  }

  /**
   * The rewriting is idempotent. Take a first run over `stmts1` that
   * succeeds, and the statements `stmts2` of the rewritten file: each
   * statement that yielded nothing is unchanged, and each cross-module import
   * now carries the literal the rule wrote for its target. A second run over
   * `stmts2` collects no modifications.
   */
  lemma SecondRunNoModifications(stmts1: seq<Statement>, stmts2: seq<Statement>, moduleOfFile: string,
                                 filePath: string, host: Host)
    requires PublicApiNotRelative(host)
    requires CollectModifications(stmts1, moduleOfFile, filePath, host).Success?
    requires |stmts2| == |stmts1|
    requires forall i :: 0 <= i < |stmts1| ==>
      if StatementModification(stmts1[i], moduleOfFile, filePath, host) == Success(None) then
        stmts2[i] == stmts1[i]
      else
        && IsCrossModuleImport(stmts1[i], moduleOfFile, filePath, host)
        && LiteralOf(stmts2[i]).Some?
        && LiteralOf(stmts2[i]).value.text == RewrittenLiteral(TargetModule(stmts1[i], filePath, host).value, host)
    ensures CollectModifications(stmts2, moduleOfFile, filePath, host) == Success([])
  {
    var outcomes := Outcomes(stmts2, moduleOfFile, filePath, host);
    forall i | 0 <= i < |outcomes| ensures outcomes[i] == Success(None) {
      assert outcomes[i] == StatementModification(stmts2[i], moduleOfFile, filePath, host);
      if StatementModification(stmts1[i], moduleOfFile, filePath, host) != Success(None) {
        var t := TargetModule(stmts1[i], filePath, host).value;
        assert LiteralOf(stmts2[i]).value.text == RewrittenLiteral(t, host);
        RewrittenImportYieldsNothing(stmts2[i], moduleOfFile, filePath, host);
      }
    }
    GatherNothing(outcomes);
  }
}

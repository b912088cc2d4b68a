/**
 * The entry rule: it visits the library's files in order and builds the list
 * of rules that are then chained: one import-path rule per TypeScript file,
 * a submodule and a sub-entry public-API rule per module file, then the
 * top-level public-API rule over all module files and the tsconfig-paths rule.
 */
module NgSamurai {

  /** The options the entry rule passes to the submodule generator. */
  datatype SubmoduleOptions = SubmoduleOptions(
    name: string, filesPath: string, path: string, generateComponent: bool, generateModule: bool)

  /** The rules the entry rule chains, each identified by what it is built from. */
  datatype Rule =
    | UpdateImportPaths(filePath: string)
    | Submodule(options: SubmoduleOptions)
    | UpdateSubentryPublicApi(filePath: string)
    | UpdateTopLevelPublicApi(modulePaths: seq<string>)
    | AddTsconfigPaths

  predicate EndsWith(s: string, suffix: string)
  {
    |suffix| <= |s| && s[|s| - |suffix|..] == suffix
  }

  predicate IsTsFile(p: string) { EndsWith(p, ".ts") }

  predicate IsModuleFile(p: string) { EndsWith(p, "module.ts") }

  /** Every module file is a TypeScript file. */
  lemma ModuleFileIsTsFile(p: string)
    requires IsModuleFile(p)
    ensures IsTsFile(p)
  {
    var tail := p[|p| - 9..];
    assert tail == "module.ts";
    assert p[|p| - 3..] == tail[6..];
  }

  /** The submodule rule for a module file: named after it, generating no component and no module. */
  function SubmoduleFor(filePath: string, libRootPath: string, getName: string -> string): (r: Rule)
    ensures r.Submodule? && r.options.name == getName(filePath) && r.options.path == libRootPath
    ensures r.options.filesPath == "../submodule/files"
    ensures !r.options.generateComponent && !r.options.generateModule
  {
    Submodule(SubmoduleOptions(getName(filePath), "../submodule/files", libRootPath, false, false))
  }

  /** The rules the visit callback pushes for one path. */
  function RulesForPath(filePath: string, libRootPath: string, getName: string -> string): (r: seq<Rule>)
    ensures IsModuleFile(filePath) ==>
      r == [UpdateImportPaths(filePath), SubmoduleFor(filePath, libRootPath, getName), UpdateSubentryPublicApi(filePath)]
    ensures IsTsFile(filePath) && !IsModuleFile(filePath) ==> r == [UpdateImportPaths(filePath)]
    ensures !IsTsFile(filePath) ==> r == []
  {
    assert IsModuleFile(filePath) ==> IsTsFile(filePath) by {
      if IsModuleFile(filePath) { ModuleFileIsTsFile(filePath); }
    }
    (if IsTsFile(filePath) then [UpdateImportPaths(filePath)] else [])
    + (if IsModuleFile(filePath)
       then [SubmoduleFor(filePath, libRootPath, getName), UpdateSubentryPublicApi(filePath)]
       else [])
  }

  /** The rules pushed while visiting `paths`, in visiting order. */
  function VisitRules(paths: seq<string>, libRootPath: string, getName: string -> string): seq<Rule>
  {
    if paths == [] then []
    else VisitRules(paths[..|paths| - 1], libRootPath, getName) + RulesForPath(paths[|paths| - 1], libRootPath, getName)
  }

  /** The visited module files, in visiting order. */
  function ModulePaths(paths: seq<string>): seq<string>
  {
    if paths == [] then []
    else ModulePaths(paths[..|paths| - 1]) + (if IsModuleFile(paths[|paths| - 1]) then [paths[|paths| - 1]] else [])
  }

  /** The whole rule list: the visit's rules, then the two closing rules. */
  function Rules(paths: seq<string>, libRootPath: string, getName: string -> string): seq<Rule>
  {
    VisitRules(paths, libRootPath, getName) + [UpdateTopLevelPublicApi(ModulePaths(paths)), AddTsconfigPaths]
  }

  /**
   * `ngSamurai`: `visitedPaths` are the files under the library root in the
   * order the tree visits them; the result is the list handed to `chain`.
   */
  method NgSamuraiRules(libRootPath: string, visitedPaths: seq<string>, getName: string -> string)
    returns (chained: seq<Rule>)
    ensures chained == Rules(visitedPaths, libRootPath, getName)
  {
    var rules: seq<Rule> := [];
    var modulePaths: seq<string> := [];
    var i := 0;
    while i < |visitedPaths|
      invariant 0 <= i <= |visitedPaths|
      invariant rules == VisitRules(visitedPaths[..i], libRootPath, getName)
      invariant modulePaths == ModulePaths(visitedPaths[..i])
    {
      var filePath := visitedPaths[i];
      assert visitedPaths[..i + 1][..i] == visitedPaths[..i];
      if IsTsFile(filePath) {
        rules := rules + [UpdateImportPaths(filePath)];
      }
      if IsModuleFile(filePath) {
        modulePaths := modulePaths + [filePath];
        rules := rules + [SubmoduleFor(filePath, libRootPath, getName)];
        rules := rules + [UpdateSubentryPublicApi(filePath)];
      }
      i := i + 1;
    }
    assert visitedPaths[..i] == visitedPaths;
    rules := rules + [UpdateTopLevelPublicApi(modulePaths)];
    rules := rules + [AddTsconfigPaths];
    chained := rules;
  }

  /** The number of paths that end with `suffix`. */
  function CountEndingWith(paths: seq<string>, suffix: string): nat
  {
    if paths == [] then 0
    else CountEndingWith(paths[..|paths| - 1], suffix) + (if EndsWith(paths[|paths| - 1], suffix) then 1 else 0)
  }

  /** There are `#ts + 2 * #module + 2` rules. */
  lemma {:induction false} RuleCount(paths: seq<string>, libRootPath: string, getName: string -> string)
    ensures |Rules(paths, libRootPath, getName)| == CountEndingWith(paths, ".ts") + 2 * CountEndingWith(paths, "module.ts") + 2
  {
    VisitRuleCount(paths, libRootPath, getName);
  }

  lemma {:induction false} VisitRuleCount(paths: seq<string>, libRootPath: string, getName: string -> string)
    ensures |VisitRules(paths, libRootPath, getName)| == CountEndingWith(paths, ".ts") + 2 * CountEndingWith(paths, "module.ts")
  {
    if paths != [] {
      VisitRuleCount(paths[..|paths| - 1], libRootPath, getName);
    }
  }

  /** The paths of the import-path rules of a rule list, in order. */
  function ImportRuleTargets(rules: seq<Rule>): seq<string>
  {
    if rules == [] then []
    else
      var last := rules[|rules| - 1];
      ImportRuleTargets(rules[..|rules| - 1]) + (if last.UpdateImportPaths? then [last.filePath] else [])
  }

  lemma {:induction false} ImportRuleTargetsAppend(a: seq<Rule>, b: seq<Rule>)
    ensures ImportRuleTargets(a + b) == ImportRuleTargets(a) + ImportRuleTargets(b)
    decreases |b|
  {
    if b != [] {
      var b' := b[..|b| - 1];
      assert (a + b)[..|a + b| - 1] == a + b';
      ImportRuleTargetsAppend(a, b');
    } else {
      assert a + b == a;
    }
  }

  /** The visited paths that end with `suffix`, in order. */
  function PathsEndingWith(paths: seq<string>, suffix: string): seq<string>
  {
    if paths == [] then []
    else
      var last := paths[|paths| - 1];
      PathsEndingWith(paths[..|paths| - 1], suffix) + (if EndsWith(last, suffix) then [last] else [])
  }

  /**
   * Every TypeScript file gets exactly one import-path rule and no other file
   * gets one: the import-path rules, in order, are those of the TypeScript files.
   */
  lemma {:induction false} ImportRulesAreTsFiles(paths: seq<string>, libRootPath: string, getName: string -> string)
    ensures ImportRuleTargets(Rules(paths, libRootPath, getName)) == PathsEndingWith(paths, ".ts")
  {
    VisitImportRules(paths, libRootPath, getName);
    var closing := [UpdateTopLevelPublicApi(ModulePaths(paths)), AddTsconfigPaths];
    ImportRuleTargetsAppend(VisitRules(paths, libRootPath, getName), closing);
    ImportRuleTargetsAppend([closing[0]], [closing[1]]);
    assert closing == [closing[0]] + [closing[1]];
    assert [closing[0]][..0] == [];
    assert [closing[1]][..0] == [];
  }

  lemma {:induction false} VisitImportRules(paths: seq<string>, libRootPath: string, getName: string -> string)
    ensures ImportRuleTargets(VisitRules(paths, libRootPath, getName)) == PathsEndingWith(paths, ".ts")
  {
    if paths != [] {
      var p := paths[|paths| - 1];
      var prefix := paths[..|paths| - 1];
      VisitImportRules(prefix, libRootPath, getName);
      ImportRuleTargetsAppend(VisitRules(prefix, libRootPath, getName), RulesForPath(p, libRootPath, getName));
      PathImportRules(p, libRootPath, getName);
    }
  }

  /** One path's rules hold an import-path rule for it exactly when it is a TypeScript file. */
  lemma PathImportRules(p: string, libRootPath: string, getName: string -> string)
    ensures ImportRuleTargets(RulesForPath(p, libRootPath, getName)) == if IsTsFile(p) then [p] else []
  {
    var r := RulesForPath(p, libRootPath, getName);
    if IsModuleFile(p) {
      assert r == [r[0]] + [r[1]] + [r[2]];
      ImportRuleTargetsAppend([r[0]] + [r[1]], [r[2]]);
      ImportRuleTargetsAppend([r[0]], [r[1]]);
      assert [r[0]][..0] == [];
      assert [r[1]][..0] == [];
      assert [r[2]][..0] == [];
    } else if IsTsFile(p) {
      assert [r[0]][..0] == [];
    }
  }

  /**
   * The module paths are exactly the visited module files in visiting order:
   * `idx` maps each to its visit position, strictly increasing, and takes in
   * every module file.
   */
  lemma {:induction false} ModulePathsAreModuleFiles(paths: seq<string>) returns (idx: seq<nat>)
    ensures |idx| == |ModulePaths(paths)|
    ensures forall k :: 0 <= k < |idx| ==> idx[k] < |paths| && ModulePaths(paths)[k] == paths[idx[k]]
    ensures forall k :: 0 <= k < |idx| ==> IsModuleFile(ModulePaths(paths)[k])
    ensures forall k, l :: 0 <= k < l < |idx| ==> idx[k] < idx[l]
    ensures forall i :: 0 <= i < |paths| && IsModuleFile(paths[i]) ==> i in idx
  {
    if paths == [] {
      idx := [];
    } else {
      var n := |paths| - 1;
      var prefix := paths[..n];
      assert forall i :: 0 <= i < n ==> prefix[i] == paths[i];
      var idx' := ModulePathsAreModuleFiles(prefix);
      if IsModuleFile(paths[n]) {
        idx := idx' + [n];
      } else {
        idx := idx';
      }
    }
  }

  /** The rules of a prefix of the visit are a prefix of the rules of the whole visit. */
  lemma {:induction false} VisitRulesPrefix(paths: seq<string>, i: nat, libRootPath: string, getName: string -> string)
    requires i <= |paths|
    ensures VisitRules(paths[..i], libRootPath, getName) <= VisitRules(paths, libRootPath, getName)
    decreases |paths| - i
  {
    if i < |paths| {
      var next := paths[..i + 1];
      assert next[..|next| - 1] == paths[..i];
      VisitRulesPrefix(paths, i + 1, libRootPath, getName);
    } else {
      assert paths[..i] == paths;
    }
  }

  /**
   * A module file contributes, consecutively and in this order, its
   * import-path rule, its submodule rule and its sub-entry public-API rule,
   * right after the rules of the files visited before it.
   */
  lemma ModuleFileRules(paths: seq<string>, i: nat, libRootPath: string, getName: string -> string)
    requires i < |paths| && IsModuleFile(paths[i])
    ensures var off := |VisitRules(paths[..i], libRootPath, getName)|;
      && off + 3 <= |Rules(paths, libRootPath, getName)|
      && Rules(paths, libRootPath, getName)[off..off + 3]
         == [UpdateImportPaths(paths[i]), SubmoduleFor(paths[i], libRootPath, getName), UpdateSubentryPublicApi(paths[i])]
  {
    var next := paths[..i + 1];
    assert next[..|next| - 1] == paths[..i];
    VisitRulesPrefix(paths, i + 1, libRootPath, getName);
  }

  /**
   * The list ends with the top-level public-API rule over the module files,
   * then the tsconfig-paths rule.
   */
  lemma ClosingRules(paths: seq<string>, libRootPath: string, getName: string -> string)
    ensures var rules := Rules(paths, libRootPath, getName);
      && |rules| >= 2
      && rules[|rules| - 2] == UpdateTopLevelPublicApi(ModulePaths(paths))
      && rules[|rules| - 1] == AddTsconfigPaths
  {
  }
}

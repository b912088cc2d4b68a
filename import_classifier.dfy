/**
 * How the import-path rule classifies one import by the shape of its path
 * literal and by the module that owns its target.
 */
module ImportClassifier {
  import opened Wrappers
  import opened Syntax

  /**
   * The collaborators of the rule, passed in explicitly. Each is an
   * uninterpreted function: `findModule` gives the path of the module file
   * that owns a path, or None where the real helper throws;
   * `convertToAbsolutPath` resolves an import literal against the importing
   * file; `getFolderPath` gives a file's directory;
   * `convertModulePathToPublicAPIImport` gives a module's public entry import.
   */
  datatype Host = Host(
    findModule: string -> Option<string>,
    convertToAbsolutPath: (string, string) -> string,
    getFolderPath: string -> string,
    convertModulePathToPublicAPIImport: string -> string)

  /** Why a run of the rule aborts. */
  datatype Error =
    | NoModuleForFile(filePath: string)
    | NoModuleForImport(importLiteral: string, filePath: string)

  predicate StartsWith(s: string, prefix: string)
  {
    |prefix| <= |s| && s[..|prefix|] == prefix
  }

  /**
   * An import is third-party unless its text starts with a single quote and a
   * dot; a relative path written in double quotes therefore counts as third-party.
   */
  function IsThirdPartyLibImport(importNode: Node): (r: bool)
    ensures r <==> !(|importNode.text| >= 2 && importNode.text[0] == '\'' && importNode.text[1] == '.')
  {
    var t := importNode.text;
    assert |t| >= 2 ==> (t[..2] == "'." <==> t[0] == '\'' && t[1] == '.') by {
      if |t| >= 2 { assert t[..2] == [t[0], t[1]]; }
    }
    !StartsWith(t, "'.")
  }

  /** The double-quoted spelling of a relative import is classified as third-party. */
  lemma DoubleQuotedRelativeIsThirdParty(importNode: Node)
    requires |importNode.text| > 0 && importNode.text[0] == '"'
    ensures IsThirdPartyLibImport(importNode)
  {
  }

  /**
   * The module that owns the target of an import literal; when there is none
   * the run aborts with an error that names the literal and the file.
   */
  function GetModulePathFromImport(importLiteral: string, filePath: string, host: Host): (r: Result<string, Error>)
    ensures r.Failure? <==> host.findModule(host.convertToAbsolutPath(filePath, importLiteral)).None?
    ensures r.Success? ==> Some(r.value) == host.findModule(host.convertToAbsolutPath(filePath, importLiteral))
    ensures r.Failure? ==> r.error == NoModuleForImport(importLiteral, filePath)
  {
    match host.findModule(host.convertToAbsolutPath(filePath, importLiteral))
    case Some(modulePath) => Success(modulePath)
    case None => Failure(NoModuleForImport(importLiteral, filePath))
  }

  /** Whether the import's target belongs to a module other than the file's own. */
  function ImportsForeignModuleCode(importNode: Node, fileModulePath: string, filePath: string, host: Host)
    : (r: Result<bool, Error>)
    ensures r.Success? <==> GetModulePathFromImport(importNode.text, filePath, host).Success?
    ensures r.Failure? ==> r.error == NoModuleForImport(importNode.text, filePath)
    ensures r.Success? ==>
      (r.value <==> GetModulePathFromImport(importNode.text, filePath, host).value != fileModulePath)
  {
    match GetModulePathFromImport(importNode.text, filePath, host)
    case Success(modulePath) => Success(fileModulePath != modulePath)
    case Failure(e) => Failure(e)
  }
}

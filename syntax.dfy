/**
 * The part of the TypeScript syntax tree that the import-path rule reads.
 * The parser itself is not modelled: a parsed file is given as the sequence
 * of its top-level statements, in document order, as `forEachChild` on the
 * source file yields them.
 */
module Syntax {
  import opened Wrappers

  /** Only string literals are told apart from every other kind of node. */
  datatype SyntaxKind = StringLiteral | OtherKind

  /**
   * A node with its kind, its full start `pos` (which includes the leading
   * trivia, such as the space after `from`), its `end` (just after the last
   * character of the token) and the text `getText()` returns, quotes included.
   */
  datatype Node = Node(kind: SyntaxKind, pos: nat, end: nat, text: string)

  /** A top-level statement: an import declaration with its direct children, or anything else. */
  datatype Statement = ImportDeclaration(children: seq<Node>) | OtherStatement

  /** `children.find(segment => segment.kind === StringLiteral)`: the first string-literal child. */
  function FindStringLiteral(children: seq<Node>): (r: Option<Node>)
    ensures r.None? <==> forall k :: 0 <= k < |children| ==> children[k].kind != StringLiteral
    ensures r.Some? ==> r.value.kind == StringLiteral && r.value in children
    ensures r.Some? ==> exists k :: 0 <= k < |children| && children[k] == r.value &&
                                    forall j :: 0 <= j < k ==> children[j].kind != StringLiteral
  {
    if children == [] then None
    else if children[0].kind == StringLiteral then Some(children[0])
    else
      var rest := FindStringLiteral(children[1..]);
      assert rest.Some? ==> exists k :: 1 <= k < |children| && children[k] == rest.value &&
                                        forall j :: 0 <= j < k ==> children[j].kind != StringLiteral by {
        if rest.Some? {
          var k' :| 0 <= k' < |children[1..]| && children[1..][k'] == rest.value &&
                    forall j :: 0 <= j < k' ==> children[1..][j].kind != StringLiteral;
          assert children[k' + 1] == rest.value;
          assert forall j :: 0 <= j < k' + 1 ==> children[j].kind != StringLiteral by {
            forall j | 0 <= j < k' + 1 ensures children[j].kind != StringLiteral {
              if j > 0 { assert children[j] == children[1..][j - 1]; }
            }
          }
        }
      }
      rest
  }

  /** The string-literal child an import declaration is classified by, if it has one. */
  function LiteralOf(stmt: Statement): Option<Node>
  {
    match stmt
    case ImportDeclaration(children) => FindStringLiteral(children)
    case OtherStatement => None
  }
}

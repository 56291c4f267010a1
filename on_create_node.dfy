/**
 * The `onCreateNode` hook: for every node the host creates, it attaches a
 * `slug` field to markdown posts and an `authorId` field to images stored
 * under the `author` directory. `createFilePath` and `getNode` are host
 * functions and are taken as parameters.
 */
module OnCreateNode {
  import opened Host

  /** The parts of a created node the hook reads. */
  datatype NodeInfo = NodeInfo(id: string, internalType: string, parent: Option<string>)

  /** The parts of a parent (file) node the hook reads. */
  datatype ParentInfo = ParentInfo(name: string, relativeDirectory: Option<string>)

  /** How the hook ends: normally, with the fields it attached, or by throwing
      a TypeError when an image's parent cannot be found. */
  datatype HookOutcome = Returned(fields: seq<NodeField>) | ThrewTypeError

  const MarkdownType: string := "MarkdownRemark"
  const ImageType: string := "ImageSharp"
  const AuthorDirectory: string := "author"

  /** `getNode(node.parent)`: undefined for a node without a parent. */
  function LookupParent(node: NodeInfo, getNode: string -> Option<ParentInfo>): Option<ParentInfo>
  {
    match node.parent
    case None => None
    case Some(id) => getNode(id)
  }

  /** What the hook does with one node. Every field it attaches belongs to
      the node itself, and at most one is attached. */
  function NodeFieldsFor(node: NodeInfo, createFilePath: NodeInfo -> string,
                         getNode: string -> Option<ParentInfo>): (outcome: HookOutcome)
    ensures outcome.Returned? ==>
      |outcome.fields| <= 1 && forall f :: f in outcome.fields ==> f.nodeId == node.id
  {
    var slug := if node.internalType == MarkdownType
                then [NodeField(node.id, "slug", createFilePath(node))] else [];
    if node.internalType != ImageType then Returned(slug)
    else
      match LookupParent(node, getNode)
      case None => ThrewTypeError
      case Some(parent) =>
        Returned(slug + if parent.relativeDirectory == Some(AuthorDirectory)
                        then [NodeField(node.id, "authorId", parent.name)] else [])
  }

  /** Runs the hook on `node`; `threw` reports the TypeError, before which
      nothing was attached. */
  method OnCreateNode(host: Host, node: NodeInfo, createFilePath: NodeInfo -> string,
                      getNode: string -> Option<ParentInfo>) returns (threw: bool)
    modifies host
    ensures threw <==> NodeFieldsFor(node, createFilePath, getNode).ThrewTypeError?
    ensures !threw ==>
      host.log == old(host.log) + FieldActions(NodeFieldsFor(node, createFilePath, getNode).fields)
    ensures threw ==> host.log == old(host.log)
  {
    threw := false;
    if node.internalType == MarkdownType {
      var value := createFilePath(node);
      host.CreateNodeField(NodeField(node.id, "slug", value));
    }

    if node.internalType == ImageType {
      var parent := LookupParent(node, getNode);
      if parent.None? {
        threw := true;
        return;
      }
      if parent.value.relativeDirectory == Some(AuthorDirectory) {
        host.CreateNodeField(NodeField(node.id, "authorId", parent.value.name));
      }
    }
  }

  /** A `slug` field is attached exactly to markdown nodes, and it is the
      node's file path. */
  lemma SlugOnlyForMarkdown(node: NodeInfo, createFilePath: NodeInfo -> string,
                            getNode: string -> Option<ParentInfo>)
    ensures var outcome := NodeFieldsFor(node, createFilePath, getNode);
      && (node.internalType == MarkdownType <==>
            outcome.Returned? && exists f :: f in outcome.fields && f.name == "slug")
      && (node.internalType == MarkdownType ==>
            outcome == Returned([NodeField(node.id, "slug", createFilePath(node))]))
  {
  }

  /** An `authorId` field is attached exactly to images whose parent lies in
      the `author` directory, and its value is the parent's name. */
  lemma AuthorIdOnlyForAuthorImages(node: NodeInfo, createFilePath: NodeInfo -> string,
                                    getNode: string -> Option<ParentInfo>)
    ensures var outcome := NodeFieldsFor(node, createFilePath, getNode);
      var parent := LookupParent(node, getNode);
      && (outcome.Returned? && (exists f :: f in outcome.fields && f.name == "authorId") <==>
            node.internalType == ImageType && parent.Some? &&
            parent.value.relativeDirectory == Some(AuthorDirectory))
      && (node.internalType == ImageType && parent.Some? &&
          parent.value.relativeDirectory == Some(AuthorDirectory) ==>
            outcome == Returned([NodeField(node.id, "authorId", parent.value.name)]))
  {
  }

  /** Nodes of any other type are left untouched, and an image outside the
      `author` directory is left untouched too. */
  lemma OtherNodesUntouched(node: NodeInfo, createFilePath: NodeInfo -> string,
                            getNode: string -> Option<ParentInfo>)
    ensures var parent := LookupParent(node, getNode);
      (node.internalType != MarkdownType && node.internalType != ImageType) ||
      (node.internalType == ImageType && parent.Some? &&
       parent.value.relativeDirectory != Some(AuthorDirectory))
      <==> NodeFieldsFor(node, createFilePath, getNode) == Returned([])
  {
  }

  /** The hook throws only for an image whose parent is missing. */
  lemma ThrowsOnlyForOrphanImages(node: NodeInfo, createFilePath: NodeInfo -> string,
                                  getNode: string -> Option<ParentInfo>)
    ensures NodeFieldsFor(node, createFilePath, getNode).ThrewTypeError? <==>
      node.internalType == ImageType && LookupParent(node, getNode).None?
  {
  }
}

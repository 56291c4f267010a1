/**
 * The `sourceNodes` hook: one `Author` node per entry of a fixed catalog.
 * `createNodeId` and `createContentDigest` are host hashing functions and are
 * taken as parameters.
 */
module SourceNodes {
  import opened Host

  /** The fixed author catalog, in declaration order. */
  const Catalog: seq<AuthorEntry> := [
    AuthorEntry("Kyle Mathews", "kylem",
                "who lives and works in San Francisco building useful things.", "kylemathews"),
    AuthorEntry("Josh Johnson", "joshj",
                "who lives and works in Michigan building neat things.", "0xJ05H")
  ]

  const AuthorType: string := "Author"

  /** The node created for one entry: its fields, an id derived from its
      authorId, and a digest computed over the entry alone. */
  function AuthorNodeFor(entry: AuthorEntry, createNodeId: string -> string,
                         createContentDigest: AuthorEntry -> string): NodeRequest
  {
    AuthorNode(entry, createNodeId(entry.authorId), AuthorType, createContentDigest(entry))
  }

  function AuthorNodes(entries: seq<AuthorEntry>, createNodeId: string -> string,
                       createContentDigest: AuthorEntry -> string): (nodes: seq<NodeRequest>)
    ensures |nodes| == |entries|
    ensures forall k :: 0 <= k < |entries| ==>
      && nodes[k].entry == entries[k]
      && nodes[k].internalType == AuthorType
      && nodes[k].id == createNodeId(entries[k].authorId)
      && nodes[k].contentDigest == createContentDigest(entries[k])
  {
    seq(|entries|, k requires 0 <= k < |entries| => AuthorNodeFor(entries[k], createNodeId, createContentDigest))
  }

  /** `authors.map(author => createNode(...))`: one createNode call per catalog entry. */
  method SourceNodes(host: Host, createNodeId: string -> string, createContentDigest: AuthorEntry -> string)
    modifies host
    ensures host.log == old(host.log) + NodeActions(AuthorNodes(Catalog, createNodeId, createContentDigest))
  {
    ghost var start := host.log;
    var i := 0;
    while i < |Catalog|
      invariant i <= |Catalog|
      invariant host.log == start + NodeActions(AuthorNodes(Catalog, createNodeId, createContentDigest))[..i]
    {
      var author := Catalog[i];
      host.CreateNode(AuthorNode(author, createNodeId(author.authorId), AuthorType, createContentDigest(author)));
      i := i + 1;
    }
  }

  /** Each catalog entry becomes exactly one Author node, in catalog order,
      carrying the entry's fields, `createNodeId(authorId)` and the entry's digest. */
  lemma CatalogNodes(createNodeId: string -> string, createContentDigest: AuthorEntry -> string)
    ensures var nodes := AuthorNodes(Catalog, createNodeId, createContentDigest);
      && |nodes| == 2
      && nodes[0].entry.authorId == "kylem" && nodes[1].entry.authorId == "joshj"
      && forall k :: 0 <= k < |nodes| ==>
           && nodes[k].entry == Catalog[k]
           && nodes[k].id == createNodeId(Catalog[k].authorId)
           && nodes[k].internalType == AuthorType
           && nodes[k].contentDigest == createContentDigest(Catalog[k])
  {
  }

  /** The catalog's authorIds are distinct, so an injective `createNodeId`
      gives the Author nodes distinct ids. */
  lemma AuthorNodeIdsDistinct(createNodeId: string -> string, createContentDigest: AuthorEntry -> string)
    requires forall x, y :: createNodeId(x) == createNodeId(y) ==> x == y
    ensures var nodes := AuthorNodes(Catalog, createNodeId, createContentDigest);
      forall i, j :: 0 <= i < j < |nodes| ==> nodes[i].id != nodes[j].id
  {
  }
}

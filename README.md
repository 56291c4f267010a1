# gatsby-starter-slices build hooks, in Dafny

This project models three of the four build hooks in `gatsby-node.js` of the Gatsby
slices starter. Each hook turns what it reads from the host into a sequence
of calls on the host's `actions` object. The model keeps those calls, in
order, as a log on a `Host` object (`host.dfy`). `createSlice`, `createPage`,
`createNode`, `createNodeField` and `reporter.panicOnBuild` each append one
entry to the log.

- `create_pages.dfy` (module `CreatePages`) models `createPages`:
  - It declares the `header` and `footer` slices.
  - It declares one `bio--<authorId>` slice per author returned by the
    author query, with context `{id: authorId}`.
  - It requests one page per post. Each page gets the post's slug as its path,
    `{id, previousPostId, nextPostId}` as its context, and the post's author
    slice as its `bio` binding.
  - A failed query ends the hook with a build panic.

  Method `CreatePages` is proved against the function `CreatePagesActions`.
  Its two `forEach` loops are the methods `DeclareBioSlices` and
  `CreatePostPages`. Lemmas about `CreatePagesActions` state what ends up in
  the log. `PagesOf` and `SlicesOf` read the requested pages and declared
  slices back out of the log, so the lemmas can say which pages and slices the
  hook emits and in what order. `LinkFrom` is a second, recursive definition of
  the neighbour linking, and a lemma proves it equal to the index-based one.
- `source_nodes.dfy` (module `SourceNodes`) models `sourceNodes`. The fixed
  author catalog becomes one `Author` node per entry, in catalog order. Each
  node has id `createNodeId(authorId)` and a digest computed over the entry.
- `on_create_node.dfy` (module `OnCreateNode`) models `onCreateNode`:
  - Markdown nodes get a `slug` field.
  - `ImageSharp` nodes whose parent file lies in the `author` directory get an
    `authorId` field equal to the parent's name.
  - All other nodes are left alone.
  - The hook throws if an image's parent cannot be found.

Host services become parameters of the hooks:
- The results of the two GraphQL queries are inputs. The post list comes in
  already sorted by date.
- `createNodeId`, `createContentDigest`, `createFilePath` and `getNode` are
  function-typed parameters.
- Component files are the constants of `Component`.

GraphQL fields that may be null (a post's `slug` and `authorId`, an author's
`authorId`) are `Option` values. The template literal `bio--${authorId}`
writes a null as the text `null` (`Interpolate`). So a post with no
`authorId` is bound to `bio--null`.

Pages are requested in post-list order, and the model keeps that order.
When the author query fails, the hook returns before the post query, so no
page is requested.

## Model

| member | source | states |
|---|---|---|
| CreatePages.CreatePages | gatsby-node.js:30-150 | The hook's log is exactly `CreatePagesActions`: header, footer, then a panic or the bio slices, then a panic or the pages |
| CreatePages.CreatePagesActions | gatsby-node.js:30-150 | The log always starts with the `header` then the `footer` slice. An author query error leaves exactly one more action (the panic). A post query error leaves the bio slices, one per author, and the panic. Two successful queries leave one bio slice per author and one page per post, and nothing else |
| CreatePages.BioSlices | gatsby-node.js:76-85 | One bio slice per queried author; what slice k holds is stated by `BioSliceAt` |
| CreatePages.BioSliceAt | gatsby-node.js:76-85 | Slice k of `BioSlices` (`BioSlice`) has id `bio--<authorId>` of author k, the bio component and context `{id: authorId}` of author k, so the slices follow query order |
| CreatePages.BioSlicesInLog | gatsby-node.js:36-86 | When the author query succeeds, whatever the post query returns, the log declares exactly 2 + N slices: header, footer, then at position 2 + k the bio slice of author k with its id, the bio component and context `{id: authorId}` |
| CreatePages.BioSliceIdParts | gatsby-node.js:145 | A bio slice id (`BioSliceId`, as at lines 79 and 145) is `bio--` followed by the author id, and it is `bio--null` when the author id is null (`Interpolate`) |
| CreatePages.PostPages | gatsby-node.js:129-148 | One page per post (`PageFor`, with neighbours from `PreviousPostId` and `NextPostId` at lines 131-132); the page contents are stated by `PageAt` and `PostPagesShape` |
| CreatePages.PageAt | gatsby-node.js:131-146 | The page for post `index` has the post's slug as path, the blog post template, the post's id, a null previous id at index 0 (otherwise the previous post's id), a null next id at the last index (otherwise the next post's id) and `bio--<authorId>` as bio |
| CreatePages.DeclareBioSlices | gatsby-node.js:73-86 | One `createSlice` per queried author, in query order, with id `bio--<authorId>`, the bio component and context `{id: authorId}` |
| CreatePages.CreatePostPages | gatsby-node.js:122-149 | One `createPage` per post, in post order, each equal to the linked page for that post |
| CreatePages.PagesEmitted | gatsby-node.js:65-149 | The pages requested are exactly the linked pages of the posts when both queries succeed (none for zero posts), and none after either query fails |
| CreatePages.SlicesDeclared | gatsby-node.js:36-86 | The slices declared are `header`, `footer`, then the bio slices in author order exactly when the author query succeeds, whatever the post query returns |
| CreatePages.PanicEndsTheHook | gatsby-node.js:65-120 | A build panic is logged if and only if a query fails, and it is the last action, with the message and errors of the failing query |
| CreatePages.AuthorQueryFailure | gatsby-node.js:65-71 | After an author query error only `header` and `footer` are declared and no page is requested |
| CreatePages.PostQueryFailure | gatsby-node.js:114-120 | After a post query error every slice, bio slices included, is declared and no page is requested |
| CreatePages.PagesIgnoreAuthors | gatsby-node.js:142-146 | The pages requested do not depend on the queried authors: a post's author is never checked against them |
| CreatePages.PostPagesShape | gatsby-node.js:129-147 | N posts give N pages. Each has the post's slug as path, the post's id, `bio--<authorId>` as bio, a null previous id exactly at index 0 (otherwise the id of the post before) and a null next id exactly at the last index (otherwise the id of the post after) |
| CreatePages.SinglePostHasNoNeighbours | gatsby-node.js:131-132 | A single post gets a page whose previous and next ids are both null |
| CreatePages.LinkingConsistent | gatsby-node.js:131-141 | Read off the pages alone: page i's next id is page i+1's id, page i+1's previous id is page i's id, and the ends are null |
| CreatePages.LinkFrom | gatsby-node.js:129-148 | A recursive walk that carries the previous post's id gives one page per post, and the first page's previous id is the one carried in |
| CreatePages.LinkFromMatchesPostPages | gatsby-node.js:129-148 | The recursive walk and the index-based linking of the hook give the same pages |
| CreatePages.BioSliceIdInjective | gatsby-node.js:145 | Two bio slice ids are equal if and only if the interpolated author ids are equal |
| CreatePages.BioSliceIdMatches | gatsby-node.js:76-85 | A bio slice id equals the id of some author's bio slice if and only if some author has the same interpolated author id |
| CreatePages.BioSliceIdDeclared | gatsby-node.js:36-146 | Among all slices the hook declares (header and footer included), one has a given bio slice id if and only if some author has the same interpolated author id |
| CreatePages.BioBindingResolves | gatsby-node.js:36-146 | In the log of a run where both queries succeed, page i exists, and its bio binding names a slice declared in that log if and only if some queried author has the same interpolated author id as post i |
| CreatePages.CatalogBioSlices | gatsby-node.js:76-146 | When the author query returns the catalog, the slices are header, footer, `bio--kylem`, `bio--joshj`, and a post by `joshj` is bound to `bio--joshj` |
| SourceNodes.AuthorNodes | gatsby-node.js:20-27 | One Author node per entry, in entry order (`AuthorNodeFor`), carrying the entry's fields, the id `createNodeId(authorId)`, type `Author` and the digest `createContentDigest(entry)` |
| SourceNodes.SourceNodes | gatsby-node.js:20-27 | One `createNode` per catalog entry, in catalog order, each equal to that entry's Author node |
| SourceNodes.CatalogNodes | gatsby-node.js:5-27 | Two Author nodes, for `kylem` then `joshj`. Each carries its entry, the id `createNodeId(authorId)`, type `Author` and the entry's digest |
| SourceNodes.AuthorNodeIdsDistinct | gatsby-node.js:20-22 | If `createNodeId` is injective, the Author nodes get pairwise distinct ids |
| OnCreateNode.NodeFieldsFor | gatsby-node.js:156-177 | What the hook does with one node (the parent found through `LookupParent`). When it returns, every field attached belongs to the created node, and at most one field is attached |
| OnCreateNode.OnCreateNode | gatsby-node.js:152-178 | The hook throws exactly when `NodeFieldsFor` is `ThrewTypeError` and then adds nothing. Otherwise it appends exactly `NodeFieldsFor`'s fields |
| OnCreateNode.SlugOnlyForMarkdown | gatsby-node.js:156-164 | A `slug` field is attached if and only if the node is `MarkdownRemark`, and then it is the only field and holds `createFilePath(node)` |
| OnCreateNode.AuthorIdOnlyForAuthorImages | gatsby-node.js:166-177 | An `authorId` field is attached if and only if the node is `ImageSharp` and its parent's relative directory is `author`, and then it is the only field and holds the parent's name |
| OnCreateNode.OtherNodesUntouched | gatsby-node.js:156-177 | Nothing is attached if and only if the node is of another type, or is an image whose parent lies outside `author` |
| OnCreateNode.ThrowsOnlyForOrphanImages | gatsby-node.js:167-170 | The hook throws if and only if the node is `ImageSharp` and `getNode` finds no parent |

## Left out

- GraphQL execution is not modelled. That covers the query strings, the sort by `frontmatter.date` and `limit: 1000`. The query results are inputs, and the post list is taken as already sorted.
- `createFilePath`, `createNodeId`, `createContentDigest` and `getNode` are host library code. They are function parameters, so these calls are assumed to return normally. No other property is assumed, except the injectivity that `AuthorNodeIdsDistinct` requires.
- OnCreateNode.ThrowsOnlyForOrphanImages: covers only the hook's own TypeError at gatsby-node.js:170. A failure inside `createFilePath` or `getNode` is not modelled, because those are host functions taken as total parameters.
- The host's own handling of created nodes is not modelled. That covers replacing a node whose content digest changed and keeping one whose digest did not (idempotent re-sourcing).
- `createSchemaCustomization` is not modelled. It passes a fixed schema string to `createTypes` and has no logic.
- `path.resolve` and `require.resolve` of component files are not modelled. Components are the opaque constants of `Component`.
- `async`/`await` is not modelled. What `reporter.panicOnBuild` does to the build, beyond being logged as the hook's last action, is not modelled either.
- A query failure is any `errors` value. The model does not look at how many errors there are or what they say, just as the truthiness test in the source does not.
- A post's `frontmatter` and `fields` objects are assumed present. If either were null, the hook would throw a TypeError at the property access. Only the `authorId` and `slug` values inside them may be null.
- The display data of the author catalog (name, summary, twitter) is carried as written but no property is stated about it.

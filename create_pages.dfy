/**
 * The `createPages` hook: it declares the header and footer slices, one bio
 * slice per queried author, and one page per queried blog post, linking each
 * page to its neighbours in the post order and binding its "bio" alias to its
 * author's slice. A failed query reports a build panic and stops the hook.
 *
 * The two GraphQL queries are inputs: their results do not depend on the
 * actions the hook performs, and the post list arrives already sorted by date.
 */
module CreatePages {
  import opened Host
  import SourceNodes

  /** The outcome of a `graphql(...)` call: its `errors`, or its nodes. */
  datatype QueryResult<T> = Failed(errors: seq<string>) | Succeeded(nodes: seq<T>)

  /** A node of `allAuthor { nodes { authorId } }`. */
  datatype AuthorResult = AuthorResult(authorId: Option<string>)

  /** A node of `allMarkdownRemark { nodes { frontmatter { authorId } id fields { slug } } }`. */
  datatype PostResult = PostResult(id: string, authorId: Option<string>, slug: Option<string>)

  const HeaderSlice: SliceRequest := SliceRequest("header", HeaderComponent, NoContext)
  const FooterSlice: SliceRequest := SliceRequest("footer", FooterComponent, NoContext)
  const GlobalSlices: seq<SliceRequest> := [HeaderSlice, FooterSlice]

  const AuthorsErrorMessage: string := "There was an error loading your authors"
  const PostsErrorMessage: string := "There was an error loading your blog posts"

  const BioPrefix: string := "bio--"

  /** How a template literal renders a GraphQL value: `null` becomes "null". */
  function Interpolate(v: Option<string>): string
  {
    match v
    case Some(s) => s
    case None => "null"
  }

  /** The slice id `bio--${authorId}`, used both to declare and to bind a bio slice. */
  function BioSliceId(authorId: Option<string>): string
  {
    BioPrefix + Interpolate(authorId)
  }

  function BioSlice(author: AuthorResult): SliceRequest
  {
    SliceRequest(BioSliceId(author.authorId), BioComponent, AuthorContext(author.authorId))
  }

  /** The bio slices of the queried authors, in query order. */
  function BioSlices(authors: seq<AuthorResult>): (slices: seq<SliceRequest>)
    ensures |slices| == |authors|
  {
    seq(|authors|, k requires 0 <= k < |authors| => BioSlice(authors[k]))
  }

  /** The bio slice of author `k`, spelled out: id `bio--<authorId>`, the bio
      component and context `{id: authorId}`. */
  lemma BioSliceAt(authors: seq<AuthorResult>, k: nat)
    requires k < |authors|
    ensures BioSlices(authors)[k] ==
      SliceRequest(BioSliceId(authors[k].authorId), BioComponent, AuthorContext(authors[k].authorId))
  {
  }

  /** `previousPostId`: null at index 0, else the id of the post before. */
  function PreviousPostId(posts: seq<PostResult>, index: nat): Option<string>
    requires index < |posts|
  {
    if index == 0 then None else Some(posts[index - 1].id)
  }

  /** `nextPostId`: null at the last index, else the id of the post after. */
  function NextPostId(posts: seq<PostResult>, index: nat): Option<string>
    requires index < |posts|
  {
    if index == |posts| - 1 then None else Some(posts[index + 1].id)
  }

  /** The page requested for the post at `index`. */
  function PageFor(posts: seq<PostResult>, index: nat): PageRequest
    requires index < |posts|
  {
    var post := posts[index];
    PageRequest(post.slug, BlogPostTemplate,
                PageContext(post.id, PreviousPostId(posts, index), NextPostId(posts, index)),
                BioSliceId(post.authorId))
  }

  /** The page at `index` of `PostPages(posts)`, spelled out. */
  lemma PageAt(posts: seq<PostResult>, index: nat)
    requires index < |posts|
    ensures PostPages(posts)[index] ==
      PageRequest(posts[index].slug, BlogPostTemplate,
                  PageContext(posts[index].id,
                              if index == 0 then None else Some(posts[index - 1].id),
                              if index == |posts| - 1 then None else Some(posts[index + 1].id)),
                  BioSliceId(posts[index].authorId))
  {
  }

  /** The pages requested for `posts`, one per post, in post order. */
  function PostPages(posts: seq<PostResult>): (pages: seq<PageRequest>)
    ensures |pages| == |posts|
  {
    seq(|posts|, k requires 0 <= k < |posts| => PageFor(posts, k))
  }

  /** Everything the hook appends to the host's log, given the two query results. */
  function CreatePagesActions(authorResults: QueryResult<AuthorResult>,
                              blogResults: QueryResult<PostResult>): (log: seq<Action>)
    ensures |log| >= 2 && log[0] == SliceCreated(HeaderSlice) && log[1] == SliceCreated(FooterSlice)
    ensures authorResults.Failed? ==> |log| == 3
    ensures authorResults.Succeeded? && blogResults.Failed? ==> |log| == 3 + |authorResults.nodes|
    ensures authorResults.Succeeded? && blogResults.Succeeded? ==>
      |log| == 2 + |authorResults.nodes| + |blogResults.nodes|
  {
    SliceActions(GlobalSlices) +
    match authorResults
    case Failed(errors) => [Panicked(AuthorsErrorMessage, errors)]
    case Succeeded(authors) =>
      SliceActions(BioSlices(authors)) +
      match blogResults
      case Failed(errors) => [Panicked(PostsErrorMessage, errors)]
      case Succeeded(posts) => PageActions(PostPages(posts))
  }

  method CreatePages(host: Host, authorResults: QueryResult<AuthorResult>,
                     blogResults: QueryResult<PostResult>)
    modifies host
    ensures host.log == old(host.log) + CreatePagesActions(authorResults, blogResults)
  {
    ghost var globals := SliceActions(GlobalSlices);
    host.CreateSlice(HeaderSlice);
    host.CreateSlice(FooterSlice);
    assert globals == [SliceCreated(HeaderSlice), SliceCreated(FooterSlice)];
    assert host.log == old(host.log) + globals;

    if authorResults.Failed? {
      host.PanicOnBuild(AuthorsErrorMessage, authorResults.errors);
      assert CreatePagesActions(authorResults, blogResults) ==
        globals + [Panicked(AuthorsErrorMessage, authorResults.errors)];
      return;
    }
    var authors := authorResults.nodes;
    DeclareBioSlices(host, authors);
    ghost var bios := SliceActions(BioSlices(authors));
    assert host.log == old(host.log) + globals + bios;

    if blogResults.Failed? {
      host.PanicOnBuild(PostsErrorMessage, blogResults.errors);
      assert CreatePagesActions(authorResults, blogResults) ==
        globals + (bios + [Panicked(PostsErrorMessage, blogResults.errors)]);
      return;
    }
    var posts := blogResults.nodes;
    CreatePostPages(host, posts);
    assert CreatePagesActions(authorResults, blogResults) ==
      globals + (bios + PageActions(PostPages(posts)));
  }

  /** `authors.forEach(...)`: one bio slice per queried author, in query order. */
  method DeclareBioSlices(host: Host, authors: seq<AuthorResult>)
    modifies host
    ensures host.log == old(host.log) + SliceActions(BioSlices(authors))
  {
    if |authors| > 0 {
      var i := 0;
      while i < |authors|
        invariant i <= |authors|
        invariant host.log == old(host.log) + SliceActions(BioSlices(authors))[..i]
      {
        var author := authors[i];
        BioSliceAt(authors, i);
        SliceActionsStep(BioSlices(authors), i);
        host.CreateSlice(SliceRequest(BioSliceId(author.authorId), BioComponent, AuthorContext(author.authorId)));
        i := i + 1;
      }
    }
    assert SliceActions(BioSlices(authors))[..|authors|] == SliceActions(BioSlices(authors));
  }

  /** `posts.forEach((post, index) => ...)`: one page per post, in post order. */
  method CreatePostPages(host: Host, posts: seq<PostResult>)
    modifies host
    ensures host.log == old(host.log) + PageActions(PostPages(posts))
  {
    ghost var pages := PostPages(posts);
    if |posts| > 0 {
      var index := 0;
      while index < |posts|
        invariant index <= |posts|
        invariant host.log == old(host.log) + PageActions(pages)[..index]
      {
        var post := posts[index];
        var previousPostId := if index == 0 then None else Some(posts[index - 1].id);
        var nextPostId := if index == |posts| - 1 then None else Some(posts[index + 1].id);
        var page := PageRequest(post.slug, BlogPostTemplate,
                                PageContext(post.id, previousPostId, nextPostId),
                                BioSliceId(post.authorId));
        PageAt(posts, index);
        PageActionsStep(pages, index);
        host.CreatePage(page);
        index := index + 1;
      }
    }
    assert PageActions(pages)[..|posts|] == PageActions(pages);
  }

  // ---------------------------------------------------------------------------
  // What the hook emits

  /** Pages are requested exactly when both queries succeed: then one page per
      post, in post order (none for zero posts); after a failed query, none. */
  lemma {:induction false} PagesEmitted(authorResults: QueryResult<AuthorResult>,
                                        blogResults: QueryResult<PostResult>)
    ensures PagesOf(CreatePagesActions(authorResults, blogResults)) ==
      if authorResults.Succeeded? && blogResults.Succeeded? then PostPages(blogResults.nodes) else []
  {
    var globals := SliceActions(GlobalSlices);
    PagesOfSliceActions(GlobalSlices);
    match authorResults
    case Failed(errors) =>
      PagesOfConcat(globals, [Panicked(AuthorsErrorMessage, errors)]);
    case Succeeded(authors) =>
      var bios := SliceActions(BioSlices(authors));
      PagesOfSliceActions(BioSlices(authors));
      match blogResults
      case Failed(errors) =>
        PagesOfConcat(bios, [Panicked(PostsErrorMessage, errors)]);
        PagesOfConcat(globals, bios + [Panicked(PostsErrorMessage, errors)]);
      case Succeeded(posts) =>
        PagesOfPageActions(PostPages(posts));
        PagesOfConcat(bios, PageActions(PostPages(posts)));
        PagesOfConcat(globals, bios + PageActions(PostPages(posts)));
  }

  /** Header and footer are always declared first; the bio slices follow, in
      author order, exactly when the author query succeeds, whatever the post
      query returns. */
  lemma {:induction false} SlicesDeclared(authorResults: QueryResult<AuthorResult>,
                                          blogResults: QueryResult<PostResult>)
    ensures SlicesOf(CreatePagesActions(authorResults, blogResults)) ==
      [HeaderSlice, FooterSlice] + if authorResults.Succeeded? then BioSlices(authorResults.nodes) else []
  {
    var globals := SliceActions(GlobalSlices);
    SlicesOfSliceActions(GlobalSlices);
    match authorResults
    case Failed(errors) =>
      SlicesOfConcat(globals, [Panicked(AuthorsErrorMessage, errors)]);
    case Succeeded(authors) =>
      var bios := SliceActions(BioSlices(authors));
      SlicesOfSliceActions(BioSlices(authors));
      var tail := match blogResults
        case Failed(errors) => [Panicked(PostsErrorMessage, errors)]
        case Succeeded(posts) => PageActions(PostPages(posts));
      if blogResults.Succeeded? {
        SlicesOfPageActions(PostPages(blogResults.nodes));
      }
      SlicesOfConcat(bios, tail);
      SlicesOfConcat(globals, bios + tail);
  }

  /** When the author query succeeds, the log declares header, footer and
      then, at position 2 + k, the bio slice of author k, whatever the post
      query returns. */
  lemma {:induction false} BioSlicesInLog(authors: seq<AuthorResult>, blogResults: QueryResult<PostResult>)
    ensures var slices := SlicesOf(CreatePagesActions(Succeeded(authors), blogResults));
      && |slices| == 2 + |authors|
      && slices[0] == HeaderSlice && slices[1] == FooterSlice
      && forall k :: 0 <= k < |authors| ==>
           slices[2 + k] ==
             SliceRequest(BioSliceId(authors[k].authorId), BioComponent, AuthorContext(authors[k].authorId))
  {
    SlicesDeclared(Succeeded(authors), blogResults);
    var slices := SlicesOf(CreatePagesActions(Succeeded(authors), blogResults));
    forall k | 0 <= k < |authors|
      ensures slices[2 + k] ==
        SliceRequest(BioSliceId(authors[k].authorId), BioComponent, AuthorContext(authors[k].authorId))
    {
      BioSliceAt(authors, k);
    }
  }

  /** A build panic is reported exactly when a query fails, and it is the last
      action of the hook: nothing is emitted after it. */
  lemma {:induction false} PanicEndsTheHook(authorResults: QueryResult<AuthorResult>,
                                            blogResults: QueryResult<PostResult>)
    ensures var log := CreatePagesActions(authorResults, blogResults);
      && ((exists k :: 0 <= k < |log| && log[k].Panicked?) <==> authorResults.Failed? || blogResults.Failed?)
      && (authorResults.Failed? ==> log[|log| - 1] == Panicked(AuthorsErrorMessage, authorResults.errors))
      && (authorResults.Succeeded? && blogResults.Failed? ==>
            log[|log| - 1] == Panicked(PostsErrorMessage, blogResults.errors))
  {
    var log := CreatePagesActions(authorResults, blogResults);
    if authorResults.Succeeded? && blogResults.Succeeded? {
      var slices := GlobalSlices + BioSlices(authorResults.nodes);
      var pages := PostPages(blogResults.nodes);
      assert log == SliceActions(slices) + PageActions(pages);
      forall k | 0 <= k < |log| ensures !log[k].Panicked? {
        if k >= |slices| {
          assert log[k] == PageActions(pages)[k - |slices|];
        }
      }
    } else {
      assert log[|log| - 1].Panicked?;
    }
  }

  /** On an author query failure the hook stops right after the footer: no
      bio slice and no page. */
  lemma {:induction false} AuthorQueryFailure(errors: seq<string>, blogResults: QueryResult<PostResult>)
    ensures SlicesOf(CreatePagesActions(Failed(errors), blogResults)) == [HeaderSlice, FooterSlice]
    ensures PagesOf(CreatePagesActions(Failed(errors), blogResults)) == []
  {
    SlicesDeclared(Failed(errors), blogResults);
    PagesEmitted(Failed(errors), blogResults);
  }

  /** On a post query failure every slice has been declared but no page is requested. */
  lemma {:induction false} PostQueryFailure(authors: seq<AuthorResult>, errors: seq<string>)
    ensures SlicesOf(CreatePagesActions(Succeeded(authors), Failed(errors))) ==
      [HeaderSlice, FooterSlice] + BioSlices(authors)
    ensures PagesOf(CreatePagesActions(Succeeded(authors), Failed(errors))) == []
  {
    SlicesDeclared(Succeeded(authors), Failed(errors));
    PagesEmitted(Succeeded(authors), Failed(errors));
  }

  /** No referential check: the pages requested do not depend on which authors
      the author query returned, so a post whose author has no slice still gets
      its page, bound to a slice that was never declared. */
  lemma {:induction false} PagesIgnoreAuthors(authors1: seq<AuthorResult>, authors2: seq<AuthorResult>,
                                              blogResults: QueryResult<PostResult>)
    ensures PagesOf(CreatePagesActions(Succeeded(authors1), blogResults)) ==
            PagesOf(CreatePagesActions(Succeeded(authors2), blogResults))
  {
    PagesEmitted(Succeeded(authors1), blogResults);
    PagesEmitted(Succeeded(authors2), blogResults);
  }

  // ---------------------------------------------------------------------------
  // The page list itself

  /** One page per post, in post order, carrying the post's slug, id and bio
      binding; the neighbours are the adjacent posts' ids, null at the ends. */
  lemma PostPagesShape(posts: seq<PostResult>)
    ensures |PostPages(posts)| == |posts|
    ensures forall i :: 0 <= i < |posts| ==>
      var page := PostPages(posts)[i];
      && page.path == posts[i].slug
      && page.component == BlogPostTemplate
      && page.context.id == posts[i].id
      && page.bio == BioPrefix + Interpolate(posts[i].authorId)
      && (page.context.previousPostId == None <==> i == 0)
      && (i > 0 ==> page.context.previousPostId == Some(posts[i - 1].id))
      && (page.context.nextPostId == None <==> i == |posts| - 1)
      && (i < |posts| - 1 ==> page.context.nextPostId == Some(posts[i + 1].id))
  {
  }

  /** A single post gets neither neighbour. */
  lemma SinglePostHasNoNeighbours(post: PostResult)
    ensures PostPages([post]) ==
      [PageRequest(post.slug, BlogPostTemplate, PageContext(post.id, None, None), BioSliceId(post.authorId))]
  {
  }

  /** Linking is consistent, read off the pages alone: consecutive pages point
      at each other, the first has no previous page and the last no next page. */
  lemma LinkingConsistent(posts: seq<PostResult>)
    ensures var pages := PostPages(posts);
      && (pages != [] ==>
            pages[0].context.previousPostId == None && pages[|pages| - 1].context.nextPostId == None)
      && forall i :: 0 <= i < |pages| - 1 ==>
           && pages[i].context.nextPostId == Some(pages[i + 1].context.id)
           && pages[i + 1].context.previousPostId == Some(pages[i].context.id)
  {
    var pages := PostPages(posts);
    if pages != [] {
      PageAt(posts, 0);
      PageAt(posts, |posts| - 1);
    }
    forall i | 0 <= i < |pages| - 1
      ensures pages[i].context.nextPostId == Some(pages[i + 1].context.id)
      ensures pages[i + 1].context.previousPostId == Some(pages[i].context.id)
    {
      PageAt(posts, i);
      PageAt(posts, i + 1);
    }
  }

  /** An independent, recursive statement of the linking: walk the posts front
      to back, carrying the id of the post just left behind. */
  function LinkFrom(previous: Option<string>, rest: seq<PostResult>): (pages: seq<PageRequest>)
    ensures |pages| == |rest|
    ensures rest != [] ==> pages[0].context.previousPostId == previous
    decreases |rest|
  {
    if rest == [] then []
    else
      var next := if |rest| == 1 then None else Some(rest[1].id);
      [PageRequest(rest[0].slug, BlogPostTemplate, PageContext(rest[0].id, previous, next), BioSliceId(rest[0].authorId))]
      + LinkFrom(Some(rest[0].id), rest[1..])
  }

  lemma {:induction false} LinkFromSuffix(posts: seq<PostResult>, k: nat)
    requires k <= |posts|
    ensures LinkFrom(if k == 0 then None else Some(posts[k - 1].id), posts[k..]) == PostPages(posts)[k..]
    decreases |posts| - k
  {
    if k < |posts| {
      LinkFromSuffix(posts, k + 1);
      PageAt(posts, k);
      assert posts[k..][1..] == posts[k + 1..];
      assert PostPages(posts)[k..] == [PostPages(posts)[k]] + PostPages(posts)[k + 1..];
    }
  }

  /** The index-based linking of the hook agrees with the recursive one. */
  lemma {:induction false} LinkFromMatchesPostPages(posts: seq<PostResult>)
    ensures LinkFrom(None, posts) == PostPages(posts)
  {
    LinkFromSuffix(posts, 0);
    assert posts[0..] == posts;
  }

  // ---------------------------------------------------------------------------
  // Bio bindings

  /** A bio slice id is `bio--` followed by the rendered author id, and
      nothing else: a missing author id renders as "null". */
  lemma BioSliceIdParts(authorId: Option<string>)
    ensures var id := BioSliceId(authorId);
      && |id| == |BioPrefix| + |Interpolate(authorId)|
      && id[..|BioPrefix|] == BioPrefix && id[|BioPrefix|..] == Interpolate(authorId)
      && (authorId.Some? ==> id[|BioPrefix|..] == authorId.value)
      && (authorId.None? ==> id == "bio--null")
  {
  }

  /** Bio slice ids coincide exactly when the rendered author ids do. */
  lemma {:induction false} BioSliceIdInjective(a: Option<string>, b: Option<string>)
    ensures BioSliceId(a) == BioSliceId(b) <==> Interpolate(a) == Interpolate(b)
  {
    if BioSliceId(a) == BioSliceId(b) {
      assert Interpolate(a) == BioSliceId(a)[|BioPrefix|..];
      assert Interpolate(b) == BioSliceId(b)[|BioPrefix|..];
    }
  }

  /** A bio slice id names the slice of an author exactly when the rendered
      author ids agree. */
  lemma {:induction false} BioSliceIdMatches(authors: seq<AuthorResult>, authorId: Option<string>)
    ensures (exists k :: 0 <= k < |authors| && BioSlices(authors)[k].id == BioSliceId(authorId))
        <==> (exists k :: 0 <= k < |authors| && Interpolate(authors[k].authorId) == Interpolate(authorId))
  {
    forall k | 0 <= k < |authors|
      ensures BioSlices(authors)[k].id == BioSliceId(authorId)
          <==> Interpolate(authors[k].authorId) == Interpolate(authorId)
    {
      BioSliceIdInjective(authors[k].authorId, authorId);
    }
  }

  /** Among all slices the hook declares, header and footer included, one has
      a given bio slice id exactly when some author renders to that author id. */
  lemma {:induction false} BioSliceIdDeclared(authors: seq<AuthorResult>, authorId: Option<string>)
    ensures (exists s :: s in [HeaderSlice, FooterSlice] + BioSlices(authors) && s.id == BioSliceId(authorId))
        <==> (exists k :: 0 <= k < |authors| && Interpolate(authors[k].authorId) == Interpolate(authorId))
  {
    BioSliceIdMatches(authors, authorId);
    var bio := BioSliceId(authorId);
    var slices := [HeaderSlice, FooterSlice] + BioSlices(authors);
    assert bio[0] == 'b' by { assert bio[0] == BioPrefix[0]; }
    assert HeaderSlice.id[0] == 'h' && FooterSlice.id[0] == 'f';
    forall s | s in slices && s.id == bio
      ensures exists k :: 0 <= k < |authors| && BioSlices(authors)[k].id == bio
    {
      var j :| 0 <= j < |slices| && slices[j] == s;
      assert BioSlices(authors)[j - 2] == s;
    }
    forall k | 0 <= k < |authors| && BioSlices(authors)[k].id == bio
      ensures slices[k + 2] in slices && slices[k + 2].id == bio
    {
    }
  }

  /** In a successful run, the bio binding of the page of post `i` names a
      slice the hook declared exactly when some queried author renders to the
      same author id as the post; otherwise the binding dangles. */
  lemma {:induction false} BioBindingResolves(authors: seq<AuthorResult>, posts: seq<PostResult>, i: nat)
    requires i < |posts|
    ensures var log := CreatePagesActions(Succeeded(authors), Succeeded(posts));
      && i < |PagesOf(log)|
      && ((exists s :: s in SlicesOf(log) && s.id == PagesOf(log)[i].bio)
          <==> (exists k :: 0 <= k < |authors| && Interpolate(authors[k].authorId) == Interpolate(posts[i].authorId)))
  {
    PagesEmitted(Succeeded(authors), Succeeded(posts));
    SlicesDeclared(Succeeded(authors), Succeeded(posts));
    BioSliceIdDeclared(authors, posts[i].authorId);
  }

  /** The author query's answer when the registry holds exactly the author catalog. */
  function CatalogAuthors(): seq<AuthorResult>
  {
    seq(|SourceNodes.Catalog|, k requires 0 <= k < |SourceNodes.Catalog| =>
          AuthorResult(Some(SourceNodes.Catalog[k].authorId)))
  }

  /** With the author catalog as the author query's answer, the bio slices
      are `bio--kylem` and `bio--joshj`, and the page of a post by `joshj` is
      bound to the second of them. */
  lemma {:induction false} CatalogBioSlices(post: PostResult)
    requires post.authorId == Some("joshj")
    ensures SlicesOf(CreatePagesActions(Succeeded(CatalogAuthors()), Succeeded([post]))) ==
      [HeaderSlice, FooterSlice,
       SliceRequest("bio--kylem", BioComponent, AuthorContext(Some("kylem"))),
       SliceRequest("bio--joshj", BioComponent, AuthorContext(Some("joshj")))]
    ensures PagesOf(CreatePagesActions(Succeeded(CatalogAuthors()), Succeeded([post]))) ==
      [PageRequest(post.slug, BlogPostTemplate, PageContext(post.id, None, None), "bio--joshj")]
  {
    SlicesDeclared(Succeeded(CatalogAuthors()), Succeeded([post]));
    PagesEmitted(Succeeded(CatalogAuthors()), Succeeded([post]));
    assert CatalogAuthors() == [AuthorResult(Some("kylem")), AuthorResult(Some("joshj"))];
    assert BioSliceId(Some("kylem")) == "bio--kylem";
    assert BioSliceId(Some("joshj")) == "bio--joshj";
    assert BioSlices(CatalogAuthors()) ==
      [SliceRequest("bio--kylem", BioComponent, AuthorContext(Some("kylem"))),
       SliceRequest("bio--joshj", BioComponent, AuthorContext(Some("joshj")))];
  }
}

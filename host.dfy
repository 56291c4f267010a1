/**
 * The build host as the hooks of gatsby-node.js see it: every call a hook
 * makes on `actions` (createSlice, createPage, createNode, createNodeField)
 * and on `reporter.panicOnBuild` is appended, in order, to one action log.
 */
module Host {

  /** A GraphQL value that may be null. */
  datatype Option<+T> = None | Some(value: T)

  /** The components slices and pages are rendered with. Their file paths are
      resolved by the host and play no part in the model. */
  datatype Component = HeaderComponent | FooterComponent | BioComponent | BlogPostTemplate

  /** A slice's `context`: absent for header and footer, `{id: authorId}` for a bio. */
  datatype SliceContext = NoContext | AuthorContext(id: Option<string>)

  /** The argument of `createSlice`. */
  datatype SliceRequest = SliceRequest(id: string, component: Component, context: SliceContext)

  /** A blog page's `context`; a missing neighbour is `null`. */
  datatype PageContext = PageContext(id: string, previousPostId: Option<string>, nextPostId: Option<string>)

  /** The argument of `createPage`; `bio` is the slice the page's "bio" alias is bound to. */
  datatype PageRequest = PageRequest(path: Option<string>, component: Component, context: PageContext, bio: string)

  /** One entry of the fixed author catalog. */
  datatype AuthorEntry = AuthorEntry(name: string, authorId: string, summary: string, twitter: string)

  /** The argument of `createNode`: the entry's own fields, plus `id` and `internal`. */
  datatype NodeRequest = AuthorNode(entry: AuthorEntry, id: string, internalType: string, contentDigest: string)

  /** The argument of `createNodeField`, the node given by its id. */
  datatype NodeField = NodeField(nodeId: string, name: string, value: string)

  datatype Action =
    | SliceCreated(slice: SliceRequest)
    | PageCreated(page: PageRequest)
    | NodeCreated(node: NodeRequest)
    | FieldCreated(field: NodeField)
    | Panicked(message: string, errors: seq<string>)

  /** The host's actions object; `log` holds every call made on it so far. */
  class Host {
    var log: seq<Action>

    constructor ()
      ensures log == []
    {
      log := [];
    }

    method CreateSlice(slice: SliceRequest)
      modifies this
      ensures log == old(log) + [SliceCreated(slice)]
    {
      log := log + [SliceCreated(slice)];
    }

    method CreatePage(page: PageRequest)
      modifies this
      ensures log == old(log) + [PageCreated(page)]
    {
      log := log + [PageCreated(page)];
    }

    method CreateNode(node: NodeRequest)
      modifies this
      ensures log == old(log) + [NodeCreated(node)]
    {
      log := log + [NodeCreated(node)];
    }

    method CreateNodeField(field: NodeField)
      modifies this
      ensures log == old(log) + [FieldCreated(field)]
    {
      log := log + [FieldCreated(field)];
    }

    /** `reporter.panicOnBuild(message, errors)`. */
    method PanicOnBuild(message: string, errors: seq<string>)
      modifies this
      ensures log == old(log) + [Panicked(message, errors)]
    {
      log := log + [Panicked(message, errors)];
    }
  }

  /** The log that one `createSlice` call per element of `slices` leaves, in order. */
  function SliceActions(slices: seq<SliceRequest>): seq<Action>
  {
    seq(|slices|, k requires 0 <= k < |slices| => SliceCreated(slices[k]))
  }

  /** The log that one `createPage` call per element of `pages` leaves, in order. */
  function PageActions(pages: seq<PageRequest>): seq<Action>
  {
    seq(|pages|, k requires 0 <= k < |pages| => PageCreated(pages[k]))
  }

  /** The log that one `createNode` call per element of `nodes` leaves, in order. */
  function NodeActions(nodes: seq<NodeRequest>): seq<Action>
  {
    seq(|nodes|, k requires 0 <= k < |nodes| => NodeCreated(nodes[k]))
  }

  /** The log that one `createNodeField` call per element of `fields` leaves, in order. */
  function FieldActions(fields: seq<NodeField>): seq<Action>
  {
    seq(|fields|, k requires 0 <= k < |fields| => FieldCreated(fields[k]))
  }

  /** One more `createPage` call extends the log by the next page. */
  lemma PageActionsStep(pages: seq<PageRequest>, i: nat)
    requires i < |pages|
    ensures PageActions(pages)[..i + 1] == PageActions(pages)[..i] + [PageCreated(pages[i])]
  {
  }

  /** One more `createSlice` call extends the log by the next slice. */
  lemma SliceActionsStep(slices: seq<SliceRequest>, i: nat)
    requires i < |slices|
    ensures SliceActions(slices)[..i + 1] == SliceActions(slices)[..i] + [SliceCreated(slices[i])]
  {
  }

  /** The pages requested in `log`, in the order they were requested. */
  function PagesOf(log: seq<Action>): (pages: seq<PageRequest>)
    ensures |pages| <= |log|
  {
    if log == [] then []
    else (if log[0].PageCreated? then [log[0].page] else []) + PagesOf(log[1..])
  }

  /** The slices declared in `log`, in the order they were declared. */
  function SlicesOf(log: seq<Action>): (slices: seq<SliceRequest>)
    ensures |slices| <= |log|
  {
    if log == [] then []
    else (if log[0].SliceCreated? then [log[0].slice] else []) + SlicesOf(log[1..])
  }

  lemma {:induction false} PagesOfConcat(a: seq<Action>, b: seq<Action>)
    ensures PagesOf(a + b) == PagesOf(a) + PagesOf(b)
  {
    if a == [] {
      assert a + b == b;
    } else {
      var head := if a[0].PageCreated? then [a[0].page] else [];
      calc {
        PagesOf(a + b);
        { assert (a + b)[0] == a[0]; assert (a + b)[1..] == a[1..] + b; }
        head + PagesOf(a[1..] + b);
        { PagesOfConcat(a[1..], b); }
        head + (PagesOf(a[1..]) + PagesOf(b));
        (head + PagesOf(a[1..])) + PagesOf(b);
      }
    }
  }

  lemma {:induction false} SlicesOfConcat(a: seq<Action>, b: seq<Action>)
    ensures SlicesOf(a + b) == SlicesOf(a) + SlicesOf(b)
  {
    if a == [] {
      assert a + b == b;
    } else {
      var head := if a[0].SliceCreated? then [a[0].slice] else [];
      calc {
        SlicesOf(a + b);
        { assert (a + b)[0] == a[0]; assert (a + b)[1..] == a[1..] + b; }
        head + SlicesOf(a[1..] + b);
        { SlicesOfConcat(a[1..], b); }
        head + (SlicesOf(a[1..]) + SlicesOf(b));
        (head + SlicesOf(a[1..])) + SlicesOf(b);
      }
    }
  }

  /** Requesting pages one by one and reading them back out of the log is the identity. */
  lemma {:induction false} PagesOfPageActions(pages: seq<PageRequest>)
    ensures PagesOf(PageActions(pages)) == pages
  {
    if pages != [] {
      assert PageActions(pages)[1..] == PageActions(pages[1..]);
      PagesOfPageActions(pages[1..]);
    }
  }

  /** Declaring slices one by one and reading them back out of the log is the identity. */
  lemma {:induction false} SlicesOfSliceActions(slices: seq<SliceRequest>)
    ensures SlicesOf(SliceActions(slices)) == slices
  {
    if slices != [] {
      assert SliceActions(slices)[1..] == SliceActions(slices[1..]);
      SlicesOfSliceActions(slices[1..]);
    }
  }

  /** Page requests declare no slice. */
  lemma {:induction false} SlicesOfPageActions(pages: seq<PageRequest>)
    ensures SlicesOf(PageActions(pages)) == []
  {
    if pages != [] {
      assert PageActions(pages)[1..] == PageActions(pages[1..]);
      SlicesOfPageActions(pages[1..]);
    }
  }

  /** Slice declarations request no page. */
  lemma {:induction false} PagesOfSliceActions(slices: seq<SliceRequest>)
    ensures PagesOf(SliceActions(slices)) == []
  {
    if slices != [] {
      assert SliceActions(slices)[1..] == SliceActions(slices[1..]);
      PagesOfSliceActions(slices[1..]);
    }
  }
}

/** The home page's feed: the fetched posts split into a featured post and
    the grid, the category join flattened, the search filter, and the message
    shown in place of an empty grid. */
module HomeFeed {
  import opened Wrappers
  import opened Text

  datatype Category = Category(id: string, name: string)

  /** One entry of the `post_categories` join: the embedded category row,
      null when the join finds none. */
  datatype CategoryLink = CategoryLink(category: Option<Category>)

  /** A published post as fetched, with its category join (absent when the
      join is not returned). Timestamps are opaque strings. */
  datatype PostRow = PostRow(
    id: string,
    title: string,
    slug: string,
    excerpt: Option<string>,
    featuredImageUrl: Option<string>,
    publishedAt: string,
    readingTime: int,
    categories: Option<seq<CategoryLink>>)

  /** A post as the page holds it, the join flattened into its categories. */
  datatype Post = Post(
    id: string,
    title: string,
    slug: string,
    excerpt: Option<string>,
    featuredImageUrl: Option<string>,
    publishedAt: string,
    readingTime: int,
    categories: Option<seq<Option<Category>>>)

  /** A present category join replaced by the categories it embeds. */
  function FlattenCategories(links: seq<CategoryLink>): (cs: seq<Option<Category>>)
    ensures |cs| == |links|
    ensures forall i :: 0 <= i < |links| ==> cs[i] == links[i].category
  {
    if links == [] then [] else [links[0].category] + FlattenCategories(links[1..])
  }

  /** One fetched row reshaped: every column kept, the join flattened. */
  function FormatPost(row: PostRow): (p: Post)
    ensures p.categories.None? <==> row.categories.None?
  {
    Post(
      row.id, row.title, row.slug, row.excerpt, row.featuredImageUrl,
      row.publishedAt, row.readingTime,
      match row.categories
      case None => None
      case Some(links) => Some(FlattenCategories(links)))
  }

  /** Every fetched row reshaped, in order. */
  function FormatAll(rows: seq<PostRow>): (ps: seq<Post>)
    ensures |ps| == |rows|
    ensures forall i :: 0 <= i < |rows| ==> ps[i] == FormatPost(rows[i])
  {
    if rows == [] then [] else [FormatPost(rows[0])] + FormatAll(rows[1..])
  }

  /** The category name a card shows: the name of the first category, if
      the list is present, non-empty and its first entry is not null. */
  function CardCategory(p: Post): (r: Option<string>) {
    match p.categories
    case Some(cs) =>
      if |cs| > 0 && cs[0].Some? then Some(cs[0].value.name) else None
    case None => None
  }

  /** A card built from a fetched row names the category of the row's first
      join entry, and names none when the join is absent, empty, or its first
      entry found no category. */
  lemma CardCategoryOfRow(row: PostRow)
    ensures var c := CardCategory(FormatPost(row));
      && (c.Some? <==> row.categories.Some? && |row.categories.value| > 0
                       && row.categories.value[0].category.Some?)
      && (c.Some? ==> c.value == row.categories.value[0].category.value.name)
  {
  }

  /** The page's state: the featured post, the posts of the grid, and
      whether the fetch is still running. */
  datatype FeedState = FeedState(featured: Option<Post>, posts: seq<Post>, loading: bool)

  /** Before the fetch completes. */
  const InitialFeed := FeedState(None, [], true)

  /** `fetchPosts`, with the server's filtering, ordering and limit already
      applied: `response` holds the fetched rows, or is `None` when the
      request failed. A non-empty list puts its first post in the featured
      slot and the rest in the grid; otherwise nothing is set. Loading ends
      either way. */
  function FetchPosts(response: Option<seq<PostRow>>): (s: FeedState)
    ensures !s.loading
    ensures response.Some? && |response.value| > 0 ==>
      && s.featured.Some?
      && [s.featured.value] + s.posts == FormatAll(response.value)
    ensures response.None? || |response.value| == 0 ==> s.featured.None? && s.posts == []
  {
    match response
    case Some(rows) =>
      if |rows| > 0 then
        var ps := FormatAll(rows);
        assert ps == [ps[0]] + ps[1..];
        FeedState(Some(ps[0]), ps[1..], false)
      else FeedState(InitialFeed.featured, InitialFeed.posts, false)
    case None => FeedState(InitialFeed.featured, InitialFeed.posts, false)
  }

  /** The search predicate: the lower-cased title includes the lower-cased
      query, or the excerpt is present and its lower case includes it. */
  predicate Matches(p: Post, query: string) {
    || Contains(Lower(p.title), Lower(query))
    || (p.excerpt.Some? && Contains(Lower(p.excerpt.value), Lower(query)))
  }

  /** `a` is `b` with some elements left out, the rest in their order. */
  predicate IsSubsequence<T(==)>(a: seq<T>, b: seq<T>)
    decreases |b|
  {
    || a == []
    || (&& b != []
        && ((a[0] == b[0] && IsSubsequence(a[1..], b[1..])) || IsSubsequence(a, b[1..])))
  }

  /** `filteredPosts`: the grid posts that match the search query. */
  function FilterPosts(posts: seq<Post>, query: string): (r: seq<Post>)
    ensures forall p :: p in r <==> p in posts && Matches(p, query)
    ensures IsSubsequence(r, posts)
  {
    if posts == [] then []
    else if Matches(posts[0], query) then [posts[0]] + FilterPosts(posts[1..], query)
    else FilterPosts(posts[1..], query)
  }

  /** The filter keeps every copy of a matching post and no copy of any
      other; with the subsequence property this fixes the result. */
  lemma {:induction false} FilterKeepsMultiplicity(posts: seq<Post>, query: string)
    ensures forall p :: multiset(FilterPosts(posts, query))[p]
                     == if Matches(p, query) then multiset(posts)[p] else 0
    decreases |posts|
  {
    if posts != [] {
      FilterKeepsMultiplicity(posts[1..], query);
      assert posts == [posts[0]] + posts[1..];
    }
  }

  /** The filter keeps a post exactly when the lower-cased query occurs at
      some position of the lower-cased title, or of the lower-cased excerpt
      when there is one; an absent excerpt matches nothing. */
  lemma FilterKeepsOccurrences(posts: seq<Post>, query: string, p: Post)
    requires p in posts
    ensures p in FilterPosts(posts, query) <==>
      || (exists i :: OccursAt(Lower(p.title), Lower(query), i))
      || (p.excerpt.Some? && exists i :: OccursAt(Lower(p.excerpt.value), Lower(query), i))
  {
    ContainsIffOccurs(Lower(p.title), Lower(query));
    if p.excerpt.Some? {
      ContainsIffOccurs(Lower(p.excerpt.value), Lower(query));
    }
  }

  /** An empty query keeps every post. */
  lemma {:induction false} FilterEmptyQuery(posts: seq<Post>)
    ensures FilterPosts(posts, "") == posts
  {
    if posts != [] {
      ContainsEmpty(Lower(posts[0].title));
      FilterEmptyQuery(posts[1..]);
    }
  }

  /** Queries that agree up to ASCII case select the same posts. */
  lemma {:induction false} FilterIgnoresQueryCase(posts: seq<Post>, q1: string, q2: string)
    requires Lower(q1) == Lower(q2)
    ensures FilterPosts(posts, q1) == FilterPosts(posts, q2)
  {
    if posts != [] {
      FilterIgnoresQueryCase(posts[1..], q1, q2);
    }
  }

  /** Lower-casing the query first changes nothing: the filter folds case
      itself. */
  lemma FilterLowerQuery(posts: seq<Post>, query: string)
    ensures FilterPosts(posts, Lower(query)) == FilterPosts(posts, query)
  {
    LowerIdempotent(query);
    FilterIgnoresQueryCase(posts, Lower(query), query);
  }

  /** Typing more of a query can only narrow the results. */
  lemma {:induction false} FilterNarrows(posts: seq<Post>, q: string, x: string)
    ensures IsSubsequence(FilterPosts(posts, q + x), FilterPosts(posts, q))
  {
    if posts != [] {
      var p := posts[0];
      FilterNarrows(posts[1..], q, x);
      assert Lower(q + x) == Lower(q) + Lower(x);
      if Matches(p, q + x) {
        if Contains(Lower(p.title), Lower(q) + Lower(x)) {
          ContainsPrefixOfNeedle(Lower(p.title), Lower(q), Lower(x));
        } else {
          ContainsPrefixOfNeedle(Lower(p.excerpt.value), Lower(q), Lower(x));
        }
        var r := FilterPosts(posts, q + x);
        var r' := FilterPosts(posts, q);
        assert r[1..] == FilterPosts(posts[1..], q + x);
        assert r'[1..] == FilterPosts(posts[1..], q);
      } else if Matches(p, q) {
        assert FilterPosts(posts, q)[1..] == FilterPosts(posts[1..], q);
      }
    }
  }

  // The message in place of an empty grid.

  const LoadingText := "Artikelen laden..."
  const NotFoundText := "Geen artikelen gevonden."
  const NoPostsText := "Nog geen artikelen beschikbaar."

  /** What the "Laatste artikelen" section shows. */
  datatype GridView = Message(text: string) | Cards(posts: seq<Post>)

  /** The section's content: the loading text while loading; otherwise the
      cards of the filtered posts, or, when none is left, a message that
      depends on whether a query was typed. */
  function PostsGrid(state: FeedState, query: string): (v: GridView)
    ensures v == Message(LoadingText) <==> state.loading
    ensures v == Message(NotFoundText)
        <==> !state.loading && query != "" && forall p :: p in state.posts ==> !Matches(p, query)
    ensures v == Message(NoPostsText) <==> !state.loading && query == "" && state.posts == []
    ensures v.Cards? ==> |v.posts| > 0 && forall p :: p in v.posts ==> p in state.posts && Matches(p, query)
    ensures !state.loading && FilterPosts(state.posts, query) != [] ==> v == Cards(FilterPosts(state.posts, query))
  {
    if state.loading then Message(LoadingText)
    else
      var shown := FilterPosts(state.posts, query);
      if |shown| == 0 then
        FilterEmptyQuery(state.posts);
        Message(if query != "" then NotFoundText else NoPostsText)
      else
        assert shown[0] in shown;
        Cards(shown)
  }

  /** Once fetched, with no query typed, the section says there are no
      articles yet exactly when at most one post was fetched, even though
      a single fetched post is shown in the featured slot. */
  lemma NoPostsMessageIff(response: Option<seq<PostRow>>)
    ensures PostsGrid(FetchPosts(response), "") == Message(NoPostsText)
        <==> response.None? || |response.value| <= 1
  {
    var s := FetchPosts(response);
    FilterEmptyQuery(s.posts);
    if response.Some? && |response.value| > 0 {
      assert |[s.featured.value] + s.posts| == |response.value|;
    }
  }
}

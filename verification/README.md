# serif-scribe-hub: editor and home-feed logic in Dafny

serif-scribe-hub is a blog front-end. Its page components hold a few small,
pure pieces of logic between the form fields and the hosted backend. This
project models those pieces and proves what they promise:

- the URL slug the post editor derives from a title (`generateSlug`);
- the editor's reading-time estimate (`calculateReadingTime`);
- the editor's form transitions: loading a stored post into the form, editing
  the title (with slug auto-fill), and building the record written on save;
- the home page's feed: the fetched list split into a featured post and the
  grid, the category join flattened, the search filter, and the message shown
  when the grid is empty.

Modules, one per concern:

| file | module | models |
|---|---|---|
| wrappers.dfy | `Wrappers` | `Option`, for nullable columns |
| text.dfy | `Text` | ASCII `toLowerCase`, `String.prototype.includes` |
| slug.dfy | `Slug` | `generateSlug` and a reference definition (words joined by hyphens) |
| reading_time.dfy | `ReadingTime` | the whitespace split, the word count and the reading time |
| editor_form.dfy | `EditorForm` | form state, `fetchPost` mapping, title and slug `onChange`, `postData` |
| home_feed.dfy | `HomeFeed` | `fetchPosts` shaping, `filteredPosts`, the empty-grid message |

Everything is a pure function over immutable datatypes. The backend's
responses (`fetchPost`'s row, `fetchPosts`'s rows), the signed-in user's id and
the current time are parameters.

Some behaviour proved here is easy to miss when reading the page code:

- Re-saving a published post sets `published_at` to the current time again
  (`EditorForm.BuildPostData`).
- A slug the author typed is saved verbatim, without the shape the generated
  slug has (`EditorForm.TypedSlugSavedVerbatim`). A generated slug is empty when the
  title has no ASCII letter or digit (`EditorForm.SavedSlugEmptyIff`).
- With no query typed, the grid says "Nog geen artikelen beschikbaar." exactly
  when at most one post was fetched, even while that post is shown as the
  featured article (`HomeFeed.NoPostsMessageIff`). The search never filters
  the featured post.

## Model

| member | source | states |
|---|---|---|
| Slug.CollapseRunsShape | src/pages/Editor.tsx:108 | after the first replacement only `a-z`, `0-9` and `-` remain; the result starts with `-` exactly when the input starts outside `[a-z0-9]`, and two hyphens are never adjacent |
| Slug.GenerateSlugWellFormed | src/pages/Editor.tsx:105-110 | every generated slug holds only `a-z`, `0-9` and `-`, never starts or ends with `-`, and never contains `--` |
| Slug.GenerateSlugIdempotent | src/pages/Editor.tsx:105-110 | generating a slug from a slug returns it unchanged |
| Slug.SlugKeepsAlnum | src/pages/Editor.tsx:106-109 | deleting every hyphen from the slug leaves exactly the ASCII letters and digits of the lower-cased title, in order |
| Slug.SlugEmptyIff | src/pages/Editor.tsx:105-110 | the slug is empty exactly when the title contains no ASCII letter or digit |
| Slug.SlugIsJoinedWords | src/pages/Editor.tsx:105-110 | the slug equals the maximal runs of `[a-z0-9]` in the lower-cased title joined by single hyphens, an independent definition |
| ReadingTime.WordCountIsRunsPlusOne | src/pages/Editor.tsx:114 | `split(/\s+/)` yields one more piece than there are maximal whitespace runs, counted by a separate one-pass scan; the empty string yields one piece |
| ReadingTime.SplitKeepsText | src/pages/Editor.tsx:114 | concatenating the pieces gives back the content without its whitespace |
| ReadingTime.SplitPiecesHaveNoSpace | src/pages/Editor.tsx:114 | no piece of the split contains a whitespace character |
| ReadingTime.ReadingTimeIsCeiling | src/pages/Editor.tsx:112-116 | the reading time is `k` exactly when the word count, 1 + the whitespace runs, lies in `(200(k-1), 200k]`, so it is the ceiling of count/200 |
| ReadingTime.ReadingTimeAtLeastOne | src/pages/Editor.tsx:112-116 | the reading time is at least 1 minute, and exactly 1 for empty content |
| EditorForm.LoadForm | src/pages/Editor.tsx:84-98 | title, slug, content and status are copied; every other text column is copied, or becomes `""` when null; a null or zero reading time becomes 5, any other is copied; the featured flag is set only by a stored `true` |
| EditorForm.BuildPostData | src/pages/Editor.tsx:123-133 | a non-empty form slug is kept verbatim, an empty one is replaced by the well-formed slug of the title; the reading time is recomputed from the content (at least 1); `published_at` is set, to `now`, exactly for published posts; an empty schedule becomes null; the author is the current user; every other field passes through |
| EditorForm.SaveIgnoresFormReadingTime | src/pages/Editor.tsx:124-129 | the reading time held in the form has no effect on the saved record |
| EditorForm.SavedSlugEmptyIff | src/pages/Editor.tsx:123 | the saved slug is empty exactly when the form slug is empty and the title has no ASCII letter or digit |
| EditorForm.SaveThenLoad | src/pages/Editor.tsx:123-133 | a saved form loads back (`fetchPost`) as itself except that the slug is filled in and the reading time recomputed; an empty schedule survives the null round trip |
| EditorForm.LoadThenSave | src/pages/Editor.tsx:84-98 | loading a row and saving it unedited keeps title, content and status; keeps a non-empty slug and generates one for an empty slug; keeps each nullable text column, writing `""` for a null one; recomputes the reading time from the content instead of keeping the stored one; keeps the schedule unless it was the empty string; keeps the featured flag, null becoming false |
| EditorForm.TitleChanged | src/pages/Editor.tsx:210-215 | the title always takes the new value; an empty slug becomes the slug of the new title; a non-empty slug is left unchanged; nothing else changes |
| EditorForm.TypedSlugFreezes | src/pages/Editor.tsx:210-215 | typing a title keystroke by keystroke into an empty slug leaves the slug generated from the first intermediate title that yields a non-empty one |
| EditorForm.TypingHeLeavesSlugH | src/pages/Editor.tsx:212-213 | typing "H" then "He" into a new post leaves the slug "h", although the slug of "He" is "he" |
| EditorForm.SlugChanged | src/pages/Editor.tsx:226 | the slug takes the typed value as it is; nothing else changes |
| EditorForm.TypedSlugSavedVerbatim | src/pages/Editor.tsx:226 | a non-empty slug typed into the slug input is the slug saved, with no normalisation |
| EditorForm.SlugChangedSynced | src/pages/Editor.tsx:226 | the corrected slug handler: the form changes as with the handler as written, and the slug counts as the author's own exactly when the typed value is non-empty |
| EditorForm.TitleChangedSynced | src/pages/Editor.tsx:210-215 | the corrected title handler: the title takes the new value, whether the slug is the author's own is unchanged, and nothing but title and slug changes |
| EditorForm.SyncedSlugFollowsTitle | src/pages/Editor.tsx:210-215 | with the corrected handlers, a keystroke in the title sets a slug the author has not typed to the slug of the new title |
| EditorForm.SyncedKeepsCustomSlug | src/pages/Editor.tsx:210-215 | with the corrected handlers, a keystroke in the title leaves a slug the author typed unchanged |
| EditorForm.TypedSyncedSlugFollowsTitle | src/pages/Editor.tsx:210-215 | with the corrected handlers, after any keystrokes in the title, a slug the author has not typed is the slug of the final title |
| EditorForm.TypedSyncedKeepsCustomSlug | src/pages/Editor.tsx:210-226 | with the corrected handlers, a slug the author typed survives any sequence of title keystrokes, including titles that generate it |
| EditorForm.CustomSlugSurvivesMatchingTitle | src/pages/Editor.tsx:210-226 | the author's slug "my-post" on a post titled "Draft" stays "my-post" while the title is typed as "My Post", then "My Post 2", although "My Post" generates "my-post" |
| Text.ContainsIffOccurs | src/pages/Home.tsx:60-61 | the scanning model of `includes` holds exactly when the needle occurs at some index of the haystack |
| HomeFeed.FlattenCategories | src/pages/Home.tsx:47 | the flattened list has the join's length and holds each entry's category at the same index |
| HomeFeed.FormatAll | src/pages/Home.tsx:45-48 | every fetched row is reshaped, in order, and none is added or dropped |
| HomeFeed.CardCategoryOfRow | src/pages/Home.tsx:108 | a card names the category of the first join entry, and none when the join is absent, empty or its first entry has no category |
| HomeFeed.FetchPosts | src/pages/Home.tsx:44-50 | loading ends; for a non-empty list the featured post followed by the grid is exactly the reshaped list; for an empty list or a failed request neither is set |
| HomeFeed.FilterPosts | src/pages/Home.tsx:59-62 | a post is kept exactly when it is in the list and matches; the result is an order-preserving subsequence of the list |
| HomeFeed.FilterKeepsMultiplicity | src/pages/Home.tsx:59-62 | every matching post is kept as many times as it occurs in the list, and no copy of any other post; with the subsequence property this determines the result |
| HomeFeed.FilterKeepsOccurrences | src/pages/Home.tsx:59-62 | a post is kept exactly when the lower-cased query occurs in the lower-cased title, or the excerpt is present and it occurs there; an absent excerpt matches nothing |
| HomeFeed.FilterEmptyQuery | src/pages/Home.tsx:59-62 | the empty query keeps every post |
| HomeFeed.FilterIgnoresQueryCase | src/pages/Home.tsx:60-61 | queries that differ only in ASCII case select the same posts |
| HomeFeed.FilterLowerQuery | src/pages/Home.tsx:60-61 | lower-casing the query before filtering changes nothing, since the filter folds case itself |
| HomeFeed.FilterNarrows | src/pages/Home.tsx:59-62 | extending the query yields a subsequence of the previous result |
| HomeFeed.PostsGrid | src/pages/Home.tsx:120-142 | the loading text is shown exactly while loading; otherwise "Geen artikelen gevonden." exactly when the query is non-empty and no grid post matches it, and "Nog geen artikelen beschikbaar." exactly when the query is empty and the grid list is empty; when some grid post matches, the cards are exactly the filtered posts, in order; a card is never shown for a post that does not match |
| HomeFeed.NoPostsMessageIff | src/pages/Home.tsx:120-124 | after the fetch, with an empty query, "Nog geen artikelen beschikbaar." is shown exactly when the request failed or returned at most one post |

## Findings

| source | as written | input that shows it | evidently intended | confidence | as-written member | corrected member |
|---|---|---|---|---|---|---|
| src/pages/Editor.tsx:212-213 | the slug is regenerated from the title only while the slug is empty, so the first keystroke that produces a slug fixes it | a new post whose title is typed as "H", then "He": the slug stays "h" | the slug follows the title until the author types a slug of their own into the slug input, and then stays as typed | medium, not executed | EditorForm.TypingHeLeavesSlugH | EditorForm.TypedSyncedSlugFollowsTitle |

`EditorForm.TitleChanged` models the handler as written.
`EditorForm.TypedSlugFreezes` shows the general case: the slug is fixed by the
first intermediate title that yields one.

The corrected handlers work on `EditorForm.SyncedEditor`: the form plus a flag
saying whether the slug is the author's own. The flag is set by typing into the
slug input (`EditorForm.SlugChangedSynced`) and cleared when that input is
emptied. `EditorForm.TitleChangedSynced` regenerates the slug only while the
flag is unset. `EditorForm.TypedSyncedSlugFollowsTitle` proves that the slug
then tracks the final title. `EditorForm.TypedSyncedKeepsCustomSlug` proves
that, once set, the author's slug survives any sequence of title keystrokes.
A new post starts with the flag unset. For a loaded post, the flag's starting
value is a choice of the caller.

## Left out

- Backend calls are not modelled: sign-in lookup, the admin-role check, and the `posts` select, insert and update. The server-side `status = published` filter, the `published_at` ordering and `limit(10)` are not modelled either. Fetched rows, the user id and request failure are inputs.
- Browser effects are left out: navigation, toasts, `console.error`, the editor's `loading` flag, the preview hand-off through `sessionStorage` and `window.open`. None of them computes anything.
- `Date` is left out: the current time is the parameter `now`, and every timestamp is an opaque string.
- Text.Lower: folds only ASCII `A`-`Z`. JavaScript's `toLowerCase` maps non-ASCII letters too. For the slug this changes nothing except for the few non-ASCII characters whose lower case is ASCII (U+0130, U+212A). For the search, non-ASCII letters are compared case-sensitively.
- ReadingTime.IsSpace: the space separators are listed as current Unicode defines them. `Math.ceil` on a floating-point quotient is modelled as integer ceiling division. The two agree for every word count a JavaScript string can produce.
- EditorForm.LoadForm: `status` is one of the three values the form offers. A stored row with any other status is not modelled. Columns the editor does not read (`id`, `published_at`, view count) are not part of `StoredPost`.
- EditorForm.Stored: assumes the table holds the written columns as written, with no server-side defaults or triggers.
- A failed `fetchPost` leaves the form as it was. That is the identity, so it is not modelled as an operation.
- The `maxLength` limits on SEO fields are not modelled, because the browser enforces them.
- `src/pages/Post.tsx` is not modelled: the view-count update is a backend read-modify-write, and the share links wrap `encodeURIComponent`. `Admin.tsx`, `About.tsx`, `PostCard.tsx`, `Navigation.tsx` and `Footer.tsx` are rendering only.

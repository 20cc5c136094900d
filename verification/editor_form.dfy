/** The post editor's form state and its transitions: loading a stored post
    into the form, editing the title, and building the record that is saved. */
module EditorForm {
  import opened Wrappers
  import Text
  import Slug
  import ReadingTime

  /** The publication lifecycle a post is in. */
  datatype Status = Draft | Scheduled | Published

  /** The editor's form state. Every text field is a (possibly empty)
      string; `scheduledAt` is the raw value of the date-time input. */
  datatype FormData = FormData(
    title: string,
    slug: string,
    excerpt: string,
    content: string,
    featuredImageUrl: string,
    featuredImageAlt: string,
    status: Status,
    scheduledAt: string,
    seoTitle: string,
    seoDescription: string,
    seoImageUrl: string,
    readingTime: int,
    isFeatured: bool)

  /** The form a new post starts from. */
  const EmptyForm := FormData("", "", "", "", "", "", Draft, "", "", "", "", 5, false)

  /** A row of the `posts` table as the editor reads it. Nullable columns are
      `Option`s; columns the editor does not read are not modelled. */
  datatype StoredPost = StoredPost(
    title: string,
    slug: string,
    excerpt: Option<string>,
    content: string,
    featuredImageUrl: Option<string>,
    featuredImageAlt: Option<string>,
    status: Status,
    scheduledAt: Option<string>,
    seoTitle: Option<string>,
    seoDescription: Option<string>,
    seoImageUrl: Option<string>,
    readingTime: Option<int>,
    isFeatured: Option<bool>)

  /** The record the editor inserts or updates on save. Timestamps are
      opaque strings. */
  datatype PostRecord = PostRecord(
    title: string,
    slug: string,
    excerpt: string,
    content: string,
    featuredImageUrl: string,
    featuredImageAlt: string,
    status: Status,
    scheduledAt: Option<string>,
    seoTitle: string,
    seoDescription: string,
    seoImageUrl: string,
    readingTime: int,
    isFeatured: bool,
    authorId: string,
    publishedAt: Option<string>)

  /** A nullable text column read with the empty string as its default. */
  function OrEmpty(x: Option<string>): (r: string)
    ensures x.None? ==> r == ""
    ensures x.Some? ==> r == x.value
  {
    x.GetOr("")
  }

  /** `fetchPost`: the stored row mapped into the form, with defaults for
      null columns. The reading-time default also replaces a stored 0,
      which is falsy. */
  function LoadForm(row: StoredPost): (f: FormData)
    ensures f.title == row.title && f.slug == row.slug
    ensures f.content == row.content && f.status == row.status
    ensures f.excerpt == OrEmpty(row.excerpt) && f.scheduledAt == OrEmpty(row.scheduledAt)
    ensures f.featuredImageUrl == OrEmpty(row.featuredImageUrl)
    ensures f.featuredImageAlt == OrEmpty(row.featuredImageAlt)
    ensures f.seoTitle == OrEmpty(row.seoTitle) && f.seoDescription == OrEmpty(row.seoDescription)
    ensures f.seoImageUrl == OrEmpty(row.seoImageUrl)
    ensures row.readingTime.None? || row.readingTime == Some(0) ==> f.readingTime == 5
    ensures row.readingTime.Some? && row.readingTime.value != 0 ==> f.readingTime == row.readingTime.value
    ensures f.isFeatured <==> row.isFeatured == Some(true)
  {
    FormData(
      row.title,
      row.slug,
      OrEmpty(row.excerpt),
      row.content,
      OrEmpty(row.featuredImageUrl),
      OrEmpty(row.featuredImageAlt),
      row.status,
      OrEmpty(row.scheduledAt),
      OrEmpty(row.seoTitle),
      OrEmpty(row.seoDescription),
      OrEmpty(row.seoImageUrl),
      if row.readingTime.None? || row.readingTime.value == 0 then 5 else row.readingTime.value,
      row.isFeatured.GetOr(false))
  }

  /** The slug saved for a form: the form's own slug when it is non-empty,
      otherwise the one generated from the title. */
  function SavedSlug(form: FormData): (r: string) {
    if form.slug != "" then form.slug else Slug.GenerateSlug(form.title)
  }

  /** `handleSubmit`'s `postData`, for the signed-in user `userId` at time
      `now`. */
  function BuildPostData(form: FormData, userId: string, now: string): (p: PostRecord)
    ensures form.slug != "" ==> p.slug == form.slug
    ensures form.slug == "" ==> p.slug == Slug.GenerateSlug(form.title) && Slug.WellFormed(p.slug)
    ensures p.readingTime == ReadingTime.CalculateReadingTime(form.content) >= 1
    ensures p.publishedAt.Some? <==> form.status == Published
    ensures p.publishedAt.Some? ==> p.publishedAt.value == now
    ensures p.scheduledAt.None? <==> form.scheduledAt == ""
    ensures p.scheduledAt.Some? ==> p.scheduledAt.value == form.scheduledAt
    ensures p.authorId == userId
    ensures p.title == form.title && p.excerpt == form.excerpt && p.content == form.content
    ensures p.featuredImageUrl == form.featuredImageUrl && p.featuredImageAlt == form.featuredImageAlt
    ensures p.status == form.status && p.isFeatured == form.isFeatured
    ensures p.seoTitle == form.seoTitle && p.seoDescription == form.seoDescription
    ensures p.seoImageUrl == form.seoImageUrl
  {
    Slug.GenerateSlugWellFormed(form.title);
    ReadingTime.ReadingTimeAtLeastOne(form.content);
    PostRecord(
      form.title,
      SavedSlug(form),
      form.excerpt,
      form.content,
      form.featuredImageUrl,
      form.featuredImageAlt,
      form.status,
      if form.scheduledAt == "" then None else Some(form.scheduledAt),
      form.seoTitle,
      form.seoDescription,
      form.seoImageUrl,
      ReadingTime.CalculateReadingTime(form.content),
      form.isFeatured,
      userId,
      if form.status == Published then Some(now) else None)
  }

  /** The reading time typed into the form never reaches the saved record. */
  lemma SaveIgnoresFormReadingTime(form: FormData, readingTime: int, userId: string, now: string)
    ensures BuildPostData(form.(readingTime := readingTime), userId, now) == BuildPostData(form, userId, now)
  {
  }

  /** The saved slug is empty exactly when the form's slug is empty and the
      title has no ASCII letter or digit. */
  lemma SavedSlugEmptyIff(form: FormData, userId: string, now: string)
    ensures BuildPostData(form, userId, now).slug == ""
        <==> form.slug == "" && forall i :: 0 <= i < |form.title| ==> !Text.IsAsciiAlnum(form.title[i])
  {
    Slug.SlugEmptyIff(form.title);
  }

  /** The row the table holds after the record is written: every column as
      written, no server-side defaults. */
  function Stored(p: PostRecord): (r: StoredPost) {
    StoredPost(
      p.title, p.slug, Some(p.excerpt), p.content,
      Some(p.featuredImageUrl), Some(p.featuredImageAlt), p.status,
      p.scheduledAt, Some(p.seoTitle), Some(p.seoDescription), Some(p.seoImageUrl),
      Some(p.readingTime), Some(p.isFeatured))
  }

  /** Saving a form and loading the stored row back gives the same form,
      except that the slug is filled in and the reading time recomputed:
      an empty schedule is stored as null and loads as empty again. */
  lemma SaveThenLoad(form: FormData, userId: string, now: string)
    ensures LoadForm(Stored(BuildPostData(form, userId, now)))
         == form.(slug := SavedSlug(form), readingTime := ReadingTime.CalculateReadingTime(form.content))
  {
  }

  /** Loading a stored row and saving it unedited keeps the title, content,
      status and a non-empty slug (an empty one is generated from the
      title); the text columns that may be null are kept, or written as
      empty strings when null; the reading time is recomputed from the
      content rather than kept; the schedule is kept, except that an empty
      one becomes null; the featured flag is kept, null becoming false. */
  lemma LoadThenSave(row: StoredPost, userId: string, now: string)
    ensures var p := BuildPostData(LoadForm(row), userId, now);
      && p.title == row.title && p.content == row.content && p.status == row.status
      && (row.slug != "" ==> p.slug == row.slug)
      && (row.slug == "" ==> p.slug == Slug.GenerateSlug(row.title))
      && p.excerpt == OrEmpty(row.excerpt)
      && p.featuredImageUrl == OrEmpty(row.featuredImageUrl)
      && p.featuredImageAlt == OrEmpty(row.featuredImageAlt)
      && p.seoTitle == OrEmpty(row.seoTitle)
      && p.seoDescription == OrEmpty(row.seoDescription)
      && p.seoImageUrl == OrEmpty(row.seoImageUrl)
      && p.readingTime == ReadingTime.CalculateReadingTime(row.content)
      && (p.scheduledAt == row.scheduledAt <==> row.scheduledAt != Some(""))
      && p.isFeatured == row.isFeatured.GetOr(false)
  {
  }

  // Editing the title.

  /** The title input's `onChange` as written: both `setFormData` calls
      build on the same render's form, and the second one, taken only when
      the slug is empty, wins. */
  function TitleChanged(form: FormData, newTitle: string): (f: FormData)
    ensures f.title == newTitle
    ensures form.slug == "" ==> f.slug == Slug.GenerateSlug(newTitle)
    ensures form.slug != "" ==> f.slug == form.slug
    ensures f.(title := form.title, slug := form.slug) == form
  {
    if form.slug == "" then form.(title := newTitle, slug := Slug.GenerateSlug(newTitle))
    else form.(title := newTitle)
  }

  /** The slug input's `onChange`: the slug takes the typed value as it is. */
  function SlugChanged(form: FormData, newSlug: string): (f: FormData)
    ensures f.slug == newSlug
    ensures f.(slug := form.slug) == form
  {
    form.(slug := newSlug)
  }

  /** A slug typed by the author is saved verbatim: it is not put through
      the slug generator, so it need not be well formed. */
  lemma TypedSlugSavedVerbatim(form: FormData, newSlug: string, userId: string, now: string)
    requires newSlug != ""
    ensures BuildPostData(SlugChanged(form, newSlug), userId, now).slug == newSlug
  {
  }

  /** The editor as evidently intended: the form, and whether the slug is
      the author's own, typed into the slug input. */
  datatype SyncedEditor = SyncedEditor(form: FormData, slugEdited: bool)

  /** The slug input's `onChange` as evidently intended: the typed value is
      taken, and it makes the slug the author's own unless the field was
      cleared, which hands the slug back to the title. */
  function SlugChangedSynced(e: SyncedEditor, newSlug: string): (r: SyncedEditor)
    ensures r.form == SlugChanged(e.form, newSlug)
    ensures r.slugEdited <==> newSlug != ""
  {
    SyncedEditor(SlugChanged(e.form, newSlug), newSlug != "")
  }

  /** The title input's `onChange` as evidently intended: the slug follows
      the title until the author types a slug of their own. */
  function TitleChangedSynced(e: SyncedEditor, newTitle: string): (r: SyncedEditor)
    ensures r.form.title == newTitle
    ensures r.slugEdited == e.slugEdited
    ensures r.form.(title := e.form.title, slug := e.form.slug) == e.form
  {
    if e.slugEdited then e.(form := e.form.(title := newTitle))
    else e.(form := e.form.(title := newTitle, slug := Slug.GenerateSlug(newTitle)))
  }

  /** While the author has not typed a slug, it follows the title... */
  lemma SyncedSlugFollowsTitle(e: SyncedEditor, newTitle: string)
    requires !e.slugEdited
    ensures TitleChangedSynced(e, newTitle).form.slug == Slug.GenerateSlug(newTitle)
  {
  }

  /** ... and once they have, a title keystroke leaves it alone. */
  lemma SyncedKeepsCustomSlug(e: SyncedEditor, newTitle: string)
    requires e.slugEdited
    ensures TitleChangedSynced(e, newTitle).form.slug == e.form.slug
  {
  }

  /** Typing a title keystroke by keystroke: `titles` are the successive
      values of the input. */
  function TypeTitle(form: FormData, titles: seq<string>): (r: FormData)
    decreases |titles|
  {
    if titles == [] then form else TypeTitle(TitleChanged(form, titles[0]), titles[1..])
  }

  /** Typing a title keystroke by keystroke with the intended handlers. */
  function TypeTitleSynced(e: SyncedEditor, titles: seq<string>): (r: SyncedEditor)
    decreases |titles|
  {
    if titles == [] then e else TypeTitleSynced(TitleChangedSynced(e, titles[0]), titles[1..])
  }

  /** The slug generated from the first of `titles` that yields a non-empty
      slug, or the empty slug when none does. */
  function FirstNonEmptySlug(titles: seq<string>): (r: string) {
    if titles == [] then ""
    else if Slug.GenerateSlug(titles[0]) != "" then Slug.GenerateSlug(titles[0])
    else FirstNonEmptySlug(titles[1..])
  }

  /** As written, typing into an empty slug fixes the slug at the first
      keystroke that yields one: later keystrokes no longer change it. */
  lemma {:induction false} TypedSlugFreezes(form: FormData, titles: seq<string>)
    requires form.slug == ""
    ensures TypeTitle(form, titles).slug == FirstNonEmptySlug(titles)
    decreases |titles|
  {
    if titles != [] {
      var f := TitleChanged(form, titles[0]);
      if f.slug == "" {
        TypedSlugFreezes(f, titles[1..]);
      } else {
        TypedSlugKept(f, titles[1..]);
      }
    }
  }

  lemma {:induction false} TypedSlugKept(form: FormData, titles: seq<string>)
    requires form.slug != ""
    ensures TypeTitle(form, titles).slug == form.slug
    decreases |titles|
  {
    if titles != [] {
      TypedSlugKept(TitleChanged(form, titles[0]), titles[1..]);
    }
  }

  /** Typing "H" then "He" into a new post leaves the slug "h", not "he". */
  lemma TypingHeLeavesSlugH()
    ensures TypeTitle(EmptyForm, ["H", "He"]).slug == "h"
    ensures Slug.GenerateSlug("He") == "he"
  {
    assert Text.Lower("H") == "h";
    assert Text.Lower("He") == "he";
    assert Slug.CollapseRuns("h") == "h";
    assert Slug.CollapseRuns("he") == "he";
    TypedSlugFreezes(EmptyForm, ["H", "He"]);
  }

  /** With the intended handlers, while the author has not typed a slug,
      after any sequence of keystrokes the slug is the one generated from
      the final title. */
  lemma {:induction false} TypedSyncedSlugFollowsTitle(e: SyncedEditor, titles: seq<string>)
    requires !e.slugEdited
    ensures !TypeTitleSynced(e, titles).slugEdited
    ensures titles != [] ==> TypeTitleSynced(e, titles).form.title == titles[|titles| - 1]
    ensures titles != [] ==> TypeTitleSynced(e, titles).form.slug == Slug.GenerateSlug(titles[|titles| - 1])
    decreases |titles|
  {
    if titles != [] {
      TypedSyncedSlugFollowsTitle(TitleChangedSynced(e, titles[0]), titles[1..]);
    }
  }

  /** With the intended handlers, a slug the author typed survives any
      sequence of title keystrokes, whatever titles they pass through. */
  lemma {:induction false} TypedSyncedKeepsCustomSlug(e: SyncedEditor, titles: seq<string>)
    requires e.slugEdited
    ensures TypeTitleSynced(e, titles).slugEdited
    ensures TypeTitleSynced(e, titles).form.slug == e.form.slug
    decreases |titles|
  {
    if titles != [] {
      TypedSyncedKeepsCustomSlug(TitleChangedSynced(e, titles[0]), titles[1..]);
    }
  }

  /** The title "My Post" generates the slug "my-post". */
  lemma MyPostSlug()
    ensures Slug.GenerateSlug("My Post") == "my-post"
  {
    assert forall i :: 0 <= i < 7 ==> Text.Lower("My Post")[i] == "my post"[i];
    assert Text.Lower("My Post") == "my post";
    assert Slug.CollapseRuns("post") == "post";
    assert Slug.CollapseRuns(" post") == "-post";
    assert Slug.CollapseRuns("my post") == "my-post";
  }

  /** Typing "my-post" into the slug of a post titled "Draft", then the
      titles "My Post" and "My Post 2", keeps "my-post", although the
      first of those titles generates it. */
  lemma CustomSlugSurvivesMatchingTitle()
    ensures var e := SlugChangedSynced(SyncedEditor(EmptyForm.(title := "Draft"), false), "my-post");
      TypeTitleSynced(e, ["My Post", "My Post 2"]).form.slug == "my-post"
    ensures Slug.GenerateSlug("My Post") == "my-post"
  {
    var e := SlugChangedSynced(SyncedEditor(EmptyForm.(title := "Draft"), false), "my-post");
    TypedSyncedKeepsCustomSlug(e, ["My Post", "My Post 2"]);
    MyPostSlug();
  }
}

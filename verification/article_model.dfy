/** The `Article` document and its `before_save` hook, which fills in the slug
    from the title while the document has not been saved yet. */
module ArticleModel {
  import opened SlugPipeline
  import SlugProperties

  datatype Option<T> = None | Some(value: T)

  /** Why a save is abandoned by the hook. */
  datatype SaveError =
    | TitleMissing  // `downcase` sent to a nil title

  datatype Result<T> = Ok(value: T) | Err(error: SaveError)

  /** An `Article` document. Dates and times are kept as opaque numbers; the
      slug doubles as the document's unique id. */
  datatype Article = Article(
    isNew: bool,
    title: Option<string>,
    slug: Option<string>,
    date: Option<int>,
    time: Option<int>,
    userId: Option<string>,
    tags: seq<string>
  )

  /** The `before_save` hook. The `if new?` guard is evaluated before the
      title is touched, so a saved document with no title passes untouched;
      a new document with no title aborts the save. */
  function BeforeSave(a: Article): (r: Result<Article>)
    ensures r.Err? <==> a.isNew && a.title.None?
    ensures r.Ok? ==> r.value.(slug := a.slug) == a
    ensures r.Ok? && !a.isNew ==> r.value.slug == a.slug
    ensures r.Ok? && a.isNew ==> r.value.slug == Some(Slug(a.title.value))
    ensures r.Ok? && a.isNew ==> IsSlug(r.value.slug.value)
  {
    if !a.isNew then Ok(a)
    else
      match a.title
      case None => Err(TitleMissing)
      case Some(t) => Ok(a.(slug := Some(Slug(t))))
  }

  /** Running the hook a second time on its own output changes nothing. */
  lemma BeforeSaveIdempotent(a: Article)
    requires BeforeSave(a).Ok?
    ensures BeforeSave(BeforeSave(a).value) == BeforeSave(a)
  {
  }

  /** Once saved, an article keeps its slug whatever its title becomes. */
  lemma SavedSlugIgnoresTitle(a: Article, title: Option<string>)
    requires !a.isNew
    ensures BeforeSave(a.(title := title)) == Ok(a.(title := title))
  {
  }

  /** Two new articles whose titles differ only in letter case end up with
      the same slug. */
  lemma CaseVariantTitlesCollide(a1: Article, a2: Article)
    requires a1.isNew && a2.isNew
    requires a1.title.Some? && a2.title.Some?
    requires Lower(a1.title.value) == Lower(a2.title.value)
    ensures BeforeSave(a1).value.slug == BeforeSave(a2).value.slug
  {
    SlugProperties.SlugIgnoresCase(a1.title.value);
    SlugProperties.SlugIgnoresCase(a2.title.value);
  }
}

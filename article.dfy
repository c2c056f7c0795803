/** The article handlers of routes/article.py. */
module ArticleRoutes {
  import opened Wrappers
  import opened Text
  import opened Records
  import opened Uploads
  import opened Query
  import opened Storage

  const FIELDS_REQUIRED := "Title, slug, body, and category are required"
  const ARTICLE_CREATED := "Article created successfully"
  const ARTICLE_NOT_FOUND := "Article not found"
  const ARTICLE_UPDATED := "Article updated successfully"
  const ARTICLE_DELETED := "Article deleted successfully"

  /** How many articles the hero section shows, and how many body characters each preview keeps. */
  const LATEST_COUNT := 3
  const PREVIEW_LENGTH := 200

  /** One article as the read handlers serialise it. */
  datatype ArticleView = ArticleView(
    id: int, title: string, slug: string, body: string, thumbnail: Option<string>,
    categoryId: int, categoryTitle: Option<string>)

  function View(a: Article, categories: map<int, Category>): ArticleView
  {
    ArticleView(a.id, a.title, a.slug, a.body, a.thumbnail, a.categoryId, CategoryTitle(categories, a.categoryId))
  }

  /** POST /articles */
  method CreateArticle(s: Store, authorized: bool, title: Option<string>, slug: Option<string>, body: Option<string>,
                       categoryId: Option<int>, file: Option<Upload>)
    returns (reply: Reply)
    requires s.Valid()
    modifies s
    ensures s.Valid()
    ensures !authorized ==> reply == Unauthorized && unchanged(s)
    ensures authorized && !(Given(title) && Given(slug) && Given(body) && categoryId.Some?) ==>
      reply == Message(400, FIELDS_REQUIRED) && unchanged(s)
    ensures authorized && Given(title) && Given(slug) && Given(body) && categoryId.Some? && categoryId.value !in old(s.categories) ==>
      reply == Message(404, CATEGORY_NOT_FOUND) && unchanged(s)
    ensures authorized && Given(title) && Given(slug) && Given(body) && categoryId.Some? && categoryId.value in old(s.categories) ==>
      && reply == WithThumbnail(201, ARTICLE_CREATED, ThumbnailFor(file))
      && s.articles == old(s.articles)[NextId(old(s.articles).Keys) := Article(NextId(old(s.articles).Keys), title.value, slug.value, body.value, ThumbnailFor(file), categoryId.value)]
      && s.uploads == old(s.uploads) + SavedNames(file)
      && s.categories == old(s.categories) && s.subcategories == old(s.subcategories) && s.admins == old(s.admins)
  {
    if !authorized {
      return Unauthorized;
    }
    if !Given(title) || !Given(slug) || !Given(body) || categoryId.None? {
      return Message(400, FIELDS_REQUIRED);
    }
    if categoryId.value !in s.categories {
      return Message(404, CATEGORY_NOT_FOUND);
    }
    var thumbnail := s.SaveThumbnail(file);
    var id := FreshId(s.articles.Keys);
    s.articles := s.articles[id := Article(id, title.value, slug.value, body.value, thumbnail, categoryId.value)];
    reply := WithThumbnail(201, ARTICLE_CREATED, thumbnail);
  }

  /** The entries of the rows under `ids`, in that order. */
  function Views(ids: seq<int>, articles: map<int, Article>, categories: map<int, Category>): (r: seq<ArticleView>)
    requires ArticlesKeyed(articles)
    requires forall i :: 0 <= i < |ids| ==> ids[i] in articles
    ensures |r| == |ids|
    ensures forall i :: 0 <= i < |r| ==> r[i].id == ids[i] && r[i] == View(articles[ids[i]], categories)
    ensures forall id :: id in ids <==> exists i :: 0 <= i < |r| && r[i].id == id
  {
    if ids == [] then [] else [View(articles[ids[0]], categories)] + Views(ids[1..], articles, categories)
  }

  /**
   * GET /articles?search=q: the articles whose title contains q ignoring case (all of them
   * when q is empty), in ascending id order, each with its category's title.
   */
  function GetArticles(articles: map<int, Article>, categories: map<int, Category>, search: string): (r: seq<ArticleView>)
    requires ArticlesKeyed(articles)
    ensures forall i :: 0 <= i < |r| ==> r[i].id in articles && r[i] == View(articles[r[i].id], categories)
    ensures forall id :: id in articles ==>
      ((exists i :: 0 <= i < |r| && r[i].id == id) <==> ContainsIgnoringCase(articles[id].title, search))
    ensures forall i, j :: 0 <= i < j < |r| ==> r[i].id < r[j].id
    ensures search == "" ==> |r| == |articles|
  {
    var ids := Search(Titles(articles, (row: Article) => row.title), search);
    var r := Views(ids, articles, categories);
    r
  }

  /**
   * GET /articles/<slug>: the article with that slug and the smallest id (the first row the
   * unordered query meets), or None for the 404 reply.
   */
  function GetArticleBySlug(articles: map<int, Article>, categories: map<int, Category>, slug: string): (r: Option<ArticleView>)
    requires ArticlesKeyed(articles)
    ensures r.None? <==> forall id :: id in articles ==> articles[id].slug != slug
    ensures r.Some? ==>
      && r.value.id in articles && r.value == View(articles[r.value.id], categories)
      && r.value.slug == slug
      && forall id :: id in articles && articles[id].slug == slug ==> r.value.id <= id
  {
    var ids := set id | id in articles && articles[id].slug == slug;
    assert forall id :: id in articles && articles[id].slug == slug ==> id in ids;
    if ids == {} then
      None
    else
      var first := Min(ids);
      Some(View(articles[first], categories))
  }

  /** `body[:200] + '...'`: at most the first 200 characters, then an ellipsis. */
  function PreviewText(body: string): (r: string)
    ensures |r| == (if |body| < PREVIEW_LENGTH then |body| else PREVIEW_LENGTH) + 3
    ensures r[..|r| - 3] == body[..|r| - 3] && r[|r| - 3..] == "..."
  {
    var n := if |body| < PREVIEW_LENGTH then |body| else PREVIEW_LENGTH;
    var r := body[..n] + "...";
    assert r[..n] == body[..n];
    r
  }

  /** The ellipsis is appended even to a body short enough to show in full. */
  lemma ShortBodyStillGetsEllipsis(body: string)
    requires |body| <= PREVIEW_LENGTH
    ensures PreviewText(body) == body + "..."
  {
  }

  /** A longer body is cut to exactly 200 characters before the ellipsis. */
  lemma LongBodyIsCut(body: string)
    requires |body| > PREVIEW_LENGTH
    ensures PreviewText(body) == body[..PREVIEW_LENGTH] + "..."
  {
  }

  function Previewed(v: ArticleView): ArticleView
  {
    v.(body := PreviewText(v.body))
  }

  /**
   * GET /articles/latest: the three articles with the largest ids (fewer when there are
   * fewer), largest first, each with its body cut to a preview.
   */
  function GetLatestArticles(articles: map<int, Article>, categories: map<int, Category>): (r: seq<ArticleView>)
    requires ArticlesKeyed(articles)
    ensures |r| == if |articles| < LATEST_COUNT then |articles| else LATEST_COUNT
    ensures forall i :: 0 <= i < |r| ==> r[i].id in articles && r[i] == Previewed(View(articles[r[i].id], categories))
    ensures forall i, j :: 0 <= i < j < |r| ==> r[i].id > r[j].id
    ensures forall id, i :: id in articles && 0 <= i < |r| && id >= r[i].id ==> exists j :: 0 <= j <= i && r[j].id == id
  {
    var ids := Descending(articles.Keys, LATEST_COUNT);
    var r := Previews(ids, articles, categories);
    LatestListed(articles, categories, ids, r);
    r
  }

  lemma LatestListed(articles: map<int, Article>, categories: map<int, Category>, ids: seq<int>, r: seq<ArticleView>)
    requires |ids| == if |articles.Keys| < LATEST_COUNT then |articles.Keys| else LATEST_COUNT
    requires Decreasing(ids) && forall k, i :: k in articles && k !in ids && 0 <= i < |ids| ==> k < ids[i]
    requires forall i :: 0 <= i < |ids| ==> ids[i] in articles
    requires |r| == |ids| && forall i :: 0 <= i < |r| ==> r[i].id == ids[i] && r[i] == Previewed(View(articles[ids[i]], categories))
    ensures |r| == if |articles| < LATEST_COUNT then |articles| else LATEST_COUNT
    ensures forall i :: 0 <= i < |r| ==> r[i].id in articles && r[i] == Previewed(View(articles[r[i].id], categories))
    ensures forall i, j :: 0 <= i < j < |r| ==> r[i].id > r[j].id
    ensures forall id, i :: id in articles && 0 <= i < |r| && id >= r[i].id ==> exists j :: 0 <= j <= i && r[j].id == id
  {
    LatestAreLargest(articles.Keys, ids);
  }

  /** The previews of the rows under `ids`, in that order. */
  function Previews(ids: seq<int>, articles: map<int, Article>, categories: map<int, Category>): (r: seq<ArticleView>)
    requires ArticlesKeyed(articles)
    requires forall i :: 0 <= i < |ids| ==> ids[i] in articles
    ensures |r| == |ids|
    ensures forall i :: 0 <= i < |r| ==> r[i].id == ids[i] && r[i] == Previewed(View(articles[ids[i]], categories))
  {
    if ids == [] then [] else [Previewed(View(articles[ids[0]], categories))] + Previews(ids[1..], articles, categories)
  }

  /** Any id at least as large as a listed one is itself listed, no later than it. */
  lemma LatestAreLargest(keys: set<int>, ids: seq<int>)
    requires Decreasing(ids)
    requires forall k, i :: k in keys && k !in ids && 0 <= i < |ids| ==> k < ids[i]
    ensures forall k, i :: k in keys && 0 <= i < |ids| && k >= ids[i] ==> exists j :: 0 <= j <= i && ids[j] == k
  {
  }

  /**
   * The row an update commits: every field present in the request overwrites, even with
   * the empty string, a given category id replaces the parent, an accepted file replaces
   * the thumbnail.
   */
  function EditArticle(a: Article, title: Option<string>, slug: Option<string>, body: Option<string>,
                       categoryId: Option<int>, file: Option<Upload>): Article
  {
    a.(title := Supplied(title, a.title), slug := Supplied(slug, a.slug), body := Supplied(body, a.body),
       categoryId := if categoryId.Some? then categoryId.value else a.categoryId,
       thumbnail := NewThumbnail(file, a.thumbnail))
  }

  /** The update checks the category only when the request names a different one. */
  predicate ChangesCategory(a: Article, categoryId: Option<int>)
  {
    categoryId.Some? && categoryId.value != a.categoryId
  }

  /** Sending the same update twice leaves the row as sending it once. */
  lemma EditArticleIdempotent(a: Article, title: Option<string>, slug: Option<string>, body: Option<string>,
                              categoryId: Option<int>, file: Option<Upload>)
    ensures var once := EditArticle(a, title, slug, body, categoryId, file);
            EditArticle(once, title, slug, body, categoryId, file) == once
  {
  }

  /** After an update the row names a category that exists, unless it kept the one it had. */
  lemma EditedCategoryExists(a: Article, categoryId: Option<int>, categories: map<int, Category>,
                             title: Option<string>, slug: Option<string>, body: Option<string>, file: Option<Upload>)
    requires !(ChangesCategory(a, categoryId) && categoryId.value !in categories)
    ensures var edited := EditArticle(a, title, slug, body, categoryId, file);
            edited.categoryId in categories || edited.categoryId == a.categoryId
  {
  }

  /** PUT /articles/<id> */
  method UpdateArticle(s: Store, authorized: bool, id: int, title: Option<string>, slug: Option<string>,
                       body: Option<string>, categoryId: Option<int>, file: Option<Upload>)
    returns (reply: Reply)
    requires s.Valid()
    modifies s
    ensures s.Valid()
    ensures !authorized ==> reply == Unauthorized && unchanged(s)
    ensures authorized && id !in old(s.articles) ==> reply == Message(404, ARTICLE_NOT_FOUND) && unchanged(s)
    ensures authorized && id in old(s.articles) && ChangesCategory(old(s.articles[id]), categoryId)
              && categoryId.value !in old(s.categories) ==>
      reply == Message(404, CATEGORY_NOT_FOUND) && unchanged(s)
    ensures authorized && id in old(s.articles)
              && !(ChangesCategory(old(s.articles[id]), categoryId) && categoryId.value !in old(s.categories)) ==>
      && s.articles == old(s.articles)[id := EditArticle(old(s.articles[id]), title, slug, body, categoryId, file)]
      && reply == WithThumbnail(200, ARTICLE_UPDATED, s.articles[id].thumbnail)
      && s.uploads == old(s.uploads) + SavedNames(file)
      && s.categories == old(s.categories) && s.subcategories == old(s.subcategories) && s.admins == old(s.admins)
    ensures old(s.uploads) <= s.uploads
  {
    if !authorized {
      return Unauthorized;
    }
    if id !in s.articles {
      return Message(404, ARTICLE_NOT_FOUND);
    }
    ghost var before := s.articles[id];
    var article := s.articles[id];
    var newTitle := Supplied(title, article.title);
    var newSlug := Supplied(slug, article.slug);
    var newBody := Supplied(body, article.body);
    if categoryId.Some? && categoryId.value != article.categoryId {
      if categoryId.value !in s.categories {
        return Message(404, CATEGORY_NOT_FOUND);
      }
      article := article.(categoryId := categoryId.value);
    }
    article := article.(title := newTitle, slug := newSlug, body := newBody);
    var thumbnail := s.SaveThumbnail(file);
    if thumbnail.Some? {
      article := article.(thumbnail := thumbnail);
    }
    assert article == EditArticle(before, title, slug, body, categoryId, file);
    ArticleWriteKeepsTable(s.articles, id, article);
    s.articles := s.articles[id := article];
    reply := WithThumbnail(200, ARTICLE_UPDATED, article.thumbnail);
  }

  /** DELETE /articles/<id>: the row and its thumbnail file go; nothing else changes. */
  method DeleteArticle(s: Store, authorized: bool, id: int) returns (reply: Reply)
    requires s.Valid()
    modifies s
    ensures s.Valid()
    ensures !authorized ==> reply == Unauthorized && unchanged(s)
    ensures authorized && id !in old(s.articles) ==> reply == Message(404, ARTICLE_NOT_FOUND) && unchanged(s)
    ensures authorized && id in old(s.articles) ==>
      && reply == Message(200, ARTICLE_DELETED)
      && s.articles == old(s.articles) - {id}
      && s.uploads == old(s.uploads) - ReclaimedNames(old(s.articles[id].thumbnail))
      && s.categories == old(s.categories) && s.subcategories == old(s.subcategories) && s.admins == old(s.admins)
  {
    if !authorized {
      return Unauthorized;
    }
    if id !in s.articles {
      return Message(404, ARTICLE_NOT_FOUND);
    }
    var article := s.articles[id];
    s.RemoveThumbnail(article.thumbnail);
    s.articles := s.articles - {id};
    reply := Message(200, ARTICLE_DELETED);
  }
}

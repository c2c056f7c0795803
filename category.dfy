/** The category handlers of routes/category.py. */
module CategoryRoutes {
  import opened Wrappers
  import opened Records
  import opened Uploads
  import opened Query
  import opened Storage

  const TITLE_SLUG_REQUIRED := "Title and slug are required"
  const CATEGORY_CREATED := "Category created"
  const CATEGORY_UPDATED := "Category updated successfully"
  const CATEGORY_DELETED := "Category deleted successfully"

  /** The row an update commits: non-empty title and slug overwrite, an accepted file replaces the thumbnail. */
  function EditCategory(c: Category, title: Option<string>, slug: Option<string>, file: Option<Upload>): Category
  {
    c.(title := NonEmptyOr(title, c.title), slug := NonEmptyOr(slug, c.slug), thumbnail := NewThumbnail(file, c.thumbnail))
  }

  /** Sending the same update twice leaves the row as sending it once. */
  lemma EditCategoryIdempotent(c: Category, title: Option<string>, slug: Option<string>, file: Option<Upload>)
    ensures EditCategory(EditCategory(c, title, slug, file), title, slug, file) == EditCategory(c, title, slug, file)
  {
  }

  /** POST /categories */
  method CreateCategory(s: Store, authorized: bool, title: Option<string>, slug: Option<string>, file: Option<Upload>)
    returns (reply: Reply)
    requires s.Valid()
    modifies s
    ensures s.Valid()
    ensures !authorized ==> reply == Unauthorized && unchanged(s)
    ensures authorized && !(Given(title) && Given(slug)) ==> reply == Message(400, TITLE_SLUG_REQUIRED) && unchanged(s)
    ensures authorized && Given(title) && Given(slug) ==>
      && reply == WithThumbnail(201, CATEGORY_CREATED, ThumbnailFor(file))
      && s.categories == old(s.categories)[NextId(old(s.categories).Keys) := Category(NextId(old(s.categories).Keys), title.value, slug.value, ThumbnailFor(file))]
      && s.uploads == old(s.uploads) + SavedNames(file)
      && s.subcategories == old(s.subcategories) && s.articles == old(s.articles) && s.admins == old(s.admins)
  {
    if !authorized {
      return Unauthorized;
    }
    if !Given(title) || !Given(slug) {
      return Message(400, TITLE_SLUG_REQUIRED);
    }
    var thumbnail := s.SaveThumbnail(file);
    var id := FreshId(s.categories.Keys);
    s.categories := s.categories[id := Category(id, title.value, slug.value, thumbnail)];
    reply := WithThumbnail(201, CATEGORY_CREATED, thumbnail);
  }

  /** GET /categories: every category, each as exactly its id, title, slug and thumbnail. */
  function GetCategories(categories: map<int, Category>): (r: seq<Category>)
    requires CategoriesKeyed(categories)
    ensures |r| == |categories|
    ensures forall i :: 0 <= i < |r| ==> r[i].id in categories && r[i] == categories[r[i].id]
    ensures forall id :: id in categories ==> exists i :: 0 <= i < |r| && r[i].id == id
    ensures forall i, j :: 0 <= i < j < |r| ==> r[i].id < r[j].id
  {
    var ids := Ascending(categories.Keys);
    var r := Rows(ids, categories);
    Listed(categories, ids, r);
    r
  }

  /** The rows of the ascending ids, in that order, are every category once, by ascending id. */
  lemma Listed(categories: map<int, Category>, ids: seq<int>, r: seq<Category>)
    requires CategoriesKeyed(categories)
    requires |ids| == |categories.Keys| && Increasing(ids)
    requires forall k :: k in ids <==> k in categories
    requires |r| == |ids| && forall i :: 0 <= i < |ids| ==> ids[i] in categories && r[i] == categories[ids[i]]
    ensures |r| == |categories|
    ensures forall i :: 0 <= i < |r| ==> r[i].id in categories && r[i] == categories[r[i].id]
    ensures forall id :: id in categories ==> exists i :: 0 <= i < |r| && r[i].id == id
    ensures forall i, j :: 0 <= i < j < |r| ==> r[i].id < r[j].id
  {
    assert forall i :: 0 <= i < |r| ==> r[i].id == ids[i];
  }

  /** PUT /categories/<id> */
  method UpdateCategory(s: Store, authorized: bool, id: int, title: Option<string>, slug: Option<string>, file: Option<Upload>)
    returns (reply: Reply)
    requires s.Valid()
    modifies s
    ensures s.Valid()
    ensures !authorized ==> reply == Unauthorized && unchanged(s)
    ensures authorized && id !in old(s.categories) ==> reply == Message(404, CATEGORY_NOT_FOUND) && unchanged(s)
    ensures authorized && id in old(s.categories) ==>
      && s.categories == old(s.categories)[id := EditCategory(old(s.categories[id]), title, slug, file)]
      && reply == WithThumbnail(200, CATEGORY_UPDATED, s.categories[id].thumbnail)
      && s.uploads == old(s.uploads) + SavedNames(file)
      && s.subcategories == old(s.subcategories) && s.articles == old(s.articles) && s.admins == old(s.admins)
    ensures old(s.uploads) <= s.uploads
  {
    if !authorized {
      return Unauthorized;
    }
    if id !in s.categories {
      return Message(404, CATEGORY_NOT_FOUND);
    }
    ghost var before := s.categories[id];
    var category := s.categories[id];
    if Given(title) {
      category := category.(title := title.value);
    }
    if Given(slug) {
      category := category.(slug := slug.value);
    }
    var thumbnail := s.SaveThumbnail(file);
    if thumbnail.Some? {
      category := category.(thumbnail := thumbnail);
    }
    assert category == EditCategory(before, title, slug, file);
    CategoryWriteKeepsTable(s.categories, id, category);
    s.categories := s.categories[id := category];
    reply := WithThumbnail(200, CATEGORY_UPDATED, category.thumbnail);
  }

  /** DELETE /categories/<id>: the row and its thumbnail file go; subcategories and articles stay. */
  method DeleteCategory(s: Store, authorized: bool, id: int) returns (reply: Reply)
    requires s.Valid()
    modifies s
    ensures s.Valid()
    ensures !authorized ==> reply == Unauthorized && unchanged(s)
    ensures authorized && id !in old(s.categories) ==> reply == Message(404, CATEGORY_NOT_FOUND) && unchanged(s)
    ensures authorized && id in old(s.categories) ==>
      && reply == Message(200, CATEGORY_DELETED)
      && s.categories == old(s.categories) - {id}
      && s.uploads == old(s.uploads) - ReclaimedNames(old(s.categories[id].thumbnail))
      && s.subcategories == old(s.subcategories) && s.articles == old(s.articles) && s.admins == old(s.admins)
  {
    if !authorized {
      return Unauthorized;
    }
    if id !in s.categories {
      return Message(404, CATEGORY_NOT_FOUND);
    }
    var category := s.categories[id];
    s.RemoveThumbnail(category.thumbnail);
    s.categories := s.categories - {id};
    reply := Message(200, CATEGORY_DELETED);
  }
}

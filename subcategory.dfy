/** The subcategory handlers of routes/subcategory.py. */
module SubcategoryRoutes {
  import opened Wrappers
  import opened Text
  import opened Records
  import opened Uploads
  import opened Query
  import opened Storage

  const FIELDS_REQUIRED := "Title, slug, and category_id are required"
  const SUBCATEGORY_CREATED := "Subcategory created"
  const SUBCATEGORY_NOT_FOUND := "Subcategory not found"
  const SUBCATEGORY_UPDATED := "Subcategory updated successfully"
  const SUBCATEGORY_DELETED := "Subcategory deleted successfully"

  /** One entry of the GET /subcategories listing. */
  datatype SubcategoryView = SubcategoryView(
    id: int, title: string, slug: string, thumbnail: Option<string>,
    categoryId: int, categoryTitle: Option<string>)

  function View(s: SubCategory, categories: map<int, Category>): SubcategoryView
  {
    SubcategoryView(s.id, s.title, s.slug, s.thumbnail, s.categoryId, CategoryTitle(categories, s.categoryId))
  }

  /**
   * The row an update commits: non-empty title and slug overwrite, a given category id
   * (already checked to exist) replaces the parent, an accepted file replaces the thumbnail.
   */
  function EditSubcategory(c: SubCategory, title: Option<string>, slug: Option<string>, categoryId: Option<int>,
                           file: Option<Upload>): SubCategory
  {
    c.(title := NonEmptyOr(title, c.title), slug := NonEmptyOr(slug, c.slug),
       categoryId := if categoryId.Some? then categoryId.value else c.categoryId,
       thumbnail := NewThumbnail(file, c.thumbnail))
  }

  /** Sending the same update twice leaves the row as sending it once. */
  lemma EditSubcategoryIdempotent(c: SubCategory, title: Option<string>, slug: Option<string>, categoryId: Option<int>,
                                  file: Option<Upload>)
    ensures var once := EditSubcategory(c, title, slug, categoryId, file);
            EditSubcategory(once, title, slug, categoryId, file) == once
  {
  }

  /** An update whose title and slug are absent or empty, with no category and no accepted file,
      commits the row as it was. */
  lemma EmptyUpdateKeepsRow(c: SubCategory, title: Option<string>, slug: Option<string>, file: Option<Upload>)
    requires !Given(title) && !Given(slug) && !(file.Some? && AllowedFile(file.value.filename))
    ensures EditSubcategory(c, title, slug, None, file) == c
  {
  }

  /** POST /subcategories */
  method CreateSubcategory(s: Store, authorized: bool, title: Option<string>, slug: Option<string>,
                           categoryId: Option<int>, file: Option<Upload>)
    returns (reply: Reply)
    requires s.Valid()
    modifies s
    ensures s.Valid()
    ensures !authorized ==> reply == Unauthorized && unchanged(s)
    ensures authorized && !(Given(title) && Given(slug) && categoryId.Some?) ==>
      reply == Message(400, FIELDS_REQUIRED) && unchanged(s)
    ensures authorized && Given(title) && Given(slug) && categoryId.Some? && categoryId.value !in old(s.categories) ==>
      reply == Message(404, CATEGORY_NOT_FOUND) && unchanged(s)
    ensures authorized && Given(title) && Given(slug) && categoryId.Some? && categoryId.value in old(s.categories) ==>
      && reply == WithThumbnail(201, SUBCATEGORY_CREATED, ThumbnailFor(file))
      && s.subcategories == old(s.subcategories)[NextId(old(s.subcategories).Keys) := SubCategory(NextId(old(s.subcategories).Keys), title.value, slug.value, ThumbnailFor(file), categoryId.value)]
      && s.uploads == old(s.uploads) + SavedNames(file)
      && s.categories == old(s.categories) && s.articles == old(s.articles) && s.admins == old(s.admins)
  {
    if !authorized {
      return Unauthorized;
    }
    if !Given(title) || !Given(slug) || categoryId.None? {
      return Message(400, FIELDS_REQUIRED);
    }
    if categoryId.value !in s.categories {
      return Message(404, CATEGORY_NOT_FOUND);
    }
    var thumbnail := s.SaveThumbnail(file);
    var id := FreshId(s.subcategories.Keys);
    s.subcategories := s.subcategories[id := SubCategory(id, title.value, slug.value, thumbnail, categoryId.value)];
    reply := WithThumbnail(201, SUBCATEGORY_CREATED, thumbnail);
  }

  /**
   * GET /subcategories?search=q: the subcategories whose title contains q ignoring case
   * (all of them when q is empty), in ascending id order, each with its parent's title.
   */
  function GetSubcategories(subcategories: map<int, SubCategory>, categories: map<int, Category>, search: string)
    : (r: seq<SubcategoryView>)
    requires SubcategoriesKeyed(subcategories)
    ensures forall i :: 0 <= i < |r| ==> r[i].id in subcategories && r[i] == View(subcategories[r[i].id], categories)
    ensures forall id :: id in subcategories ==>
      ((exists i :: 0 <= i < |r| && r[i].id == id) <==> ContainsIgnoringCase(subcategories[id].title, search))
    ensures forall i, j :: 0 <= i < j < |r| ==> r[i].id < r[j].id
    ensures search == "" ==> |r| == |subcategories|
  {
    var ids := Search(Titles(subcategories, (row: SubCategory) => row.title), search);
    var r := Views(ids, subcategories, categories);
    r
  }

  /** The listing entries of the rows under `ids`, in that order. */
  function Views(ids: seq<int>, subcategories: map<int, SubCategory>, categories: map<int, Category>)
    : (r: seq<SubcategoryView>)
    requires SubcategoriesKeyed(subcategories)
    requires forall i :: 0 <= i < |ids| ==> ids[i] in subcategories
    ensures |r| == |ids|
    ensures forall i :: 0 <= i < |r| ==> r[i].id == ids[i] && r[i] == View(subcategories[ids[i]], categories)
    ensures forall id :: id in ids <==> exists i :: 0 <= i < |r| && r[i].id == id
  {
    if ids == [] then []
    else
      [View(subcategories[ids[0]], categories)] + Views(ids[1..], subcategories, categories)
  }

  /** PUT /subcategories/<id> */
  method UpdateSubcategory(s: Store, authorized: bool, id: int, title: Option<string>, slug: Option<string>,
                           categoryId: Option<int>, file: Option<Upload>)
    returns (reply: Reply)
    requires s.Valid()
    modifies s
    ensures s.Valid()
    ensures !authorized ==> reply == Unauthorized && unchanged(s)
    ensures authorized && id !in old(s.subcategories) ==> reply == Message(404, SUBCATEGORY_NOT_FOUND) && unchanged(s)
    ensures authorized && id in old(s.subcategories) && categoryId.Some? && categoryId.value !in old(s.categories) ==>
      reply == Message(404, CATEGORY_NOT_FOUND) && unchanged(s)
    ensures authorized && id in old(s.subcategories) && (categoryId.Some? ==> categoryId.value in old(s.categories)) ==>
      && s.subcategories == old(s.subcategories)[id := EditSubcategory(old(s.subcategories[id]), title, slug, categoryId, file)]
      && reply == WithThumbnail(200, SUBCATEGORY_UPDATED, s.subcategories[id].thumbnail)
      && s.uploads == old(s.uploads) + SavedNames(file)
      && s.categories == old(s.categories) && s.articles == old(s.articles) && s.admins == old(s.admins)
    ensures old(s.uploads) <= s.uploads
  {
    if !authorized {
      return Unauthorized;
    }
    if id !in s.subcategories {
      return Message(404, SUBCATEGORY_NOT_FOUND);
    }
    ghost var before := s.subcategories[id];
    var subcategory := s.subcategories[id];
    if Given(title) {
      subcategory := subcategory.(title := title.value);
    }
    if Given(slug) {
      subcategory := subcategory.(slug := slug.value);
    }
    if categoryId.Some? {
      if categoryId.value !in s.categories {
        // the title and slug assignments above die with the uncommitted session
        return Message(404, CATEGORY_NOT_FOUND);
      }
      subcategory := subcategory.(categoryId := categoryId.value);
    }
    var thumbnail := s.SaveThumbnail(file);
    if thumbnail.Some? {
      subcategory := subcategory.(thumbnail := thumbnail);
    }
    assert subcategory == EditSubcategory(before, title, slug, categoryId, file);
    SubcategoryWriteKeepsTable(s.subcategories, id, subcategory);
    s.subcategories := s.subcategories[id := subcategory];
    reply := WithThumbnail(200, SUBCATEGORY_UPDATED, subcategory.thumbnail);
  }

  /** DELETE /subcategories/<id>: the row and its thumbnail file go; nothing else changes. */
  method DeleteSubcategory(s: Store, authorized: bool, id: int) returns (reply: Reply)
    requires s.Valid()
    modifies s
    ensures s.Valid()
    ensures !authorized ==> reply == Unauthorized && unchanged(s)
    ensures authorized && id !in old(s.subcategories) ==> reply == Message(404, SUBCATEGORY_NOT_FOUND) && unchanged(s)
    ensures authorized && id in old(s.subcategories) ==>
      && reply == Message(200, SUBCATEGORY_DELETED)
      && s.subcategories == old(s.subcategories) - {id}
      && s.uploads == old(s.uploads) - ReclaimedNames(old(s.subcategories[id].thumbnail))
      && s.categories == old(s.categories) && s.articles == old(s.articles) && s.admins == old(s.admins)
  {
    if !authorized {
      return Unauthorized;
    }
    if id !in s.subcategories {
      return Message(404, SUBCATEGORY_NOT_FOUND);
    }
    var subcategory := s.subcategories[id];
    s.RemoveThumbnail(subcategory.thumbnail);
    s.subcategories := s.subcategories - {id};
    reply := Message(200, SUBCATEGORY_DELETED);
  }
}

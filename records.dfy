/**
 * The rows of the four tables, the JSON replies of the writing handlers, and the two
 * partial-update rules the update handlers apply field by field.
 */
module Records {
  import opened Wrappers

  datatype Category = Category(id: int, title: string, slug: string, thumbnail: Option<string>)

  datatype SubCategory = SubCategory(id: int, title: string, slug: string, thumbnail: Option<string>, categoryId: int)

  datatype Article = Article(id: int, title: string, slug: string, body: string, thumbnail: Option<string>, categoryId: int)

  /** `password` holds what the hashing library returned, never the submitted password. */
  datatype Admin = Admin(id: int, username: string, password: string)

  /**
   * A handler's reply: rejected by `@jwt_required()` before the handler body runs,
   * `{"message": ...}` with a status, or `{"message": ..., "thumbnail": ...}` with a status.
   */
  datatype Reply =
    | Unauthorized
    | Message(status: int, message: string)
    | WithThumbnail(status: int, message: string, thumbnail: Option<string>)

  const CATEGORY_NOT_FOUND := "Category not found"

  /** A form field passes `if field:` in Python: present and not the empty string. */
  predicate Given(field: Option<string>)
  {
    field.Some? && field.value != ""
  }

  /** The article rule, `data.get(name, stored)`: a present field overwrites, even when empty. */
  function Supplied(field: Option<string>, stored: string): string
  {
    if field.Some? then field.value else stored
  }

  /** The subcategory and category rule, `if field: row.field = field`: only a non-empty field overwrites. */
  function NonEmptyOr(field: Option<string>, stored: string): string
  {
    if Given(field) then field.value else stored
  }

  /** The two rules agree except on a present empty field, which only the article rule writes. */
  lemma PartialUpdateRulesDiffer(field: Option<string>, stored: string)
    ensures field != Some("") ==> Supplied(field, stored) == NonEmptyOr(field, stored)
    ensures field == Some("") ==> Supplied(field, stored) == "" && NonEmptyOr(field, stored) == stored
  {
  }

  /** `c.title if c else None` for the row's parent category. */
  function CategoryTitle(categories: map<int, Category>, id: int): (r: Option<string>)
    ensures r.Some? <==> id in categories
    ensures r.Some? ==> r.value == categories[id].title
  {
    if id in categories then Some(categories[id].title) else None
  }

  // Each table is keyed by its rows' primary key.

  predicate CategoriesKeyed(m: map<int, Category>)
  {
    forall id :: id in m ==> 1 <= id && m[id].id == id
  }

  predicate SubcategoriesKeyed(m: map<int, SubCategory>)
  {
    forall id :: id in m ==> 1 <= id && m[id].id == id
  }

  predicate ArticlesKeyed(m: map<int, Article>)
  {
    forall id :: id in m ==> 1 <= id && m[id].id == id
  }

  /** The admin table keyed by username: each row sits under its own username, and ids are distinct. */
  predicate AdminsKeyed(m: map<string, Admin>)
  {
    && (forall u :: u in m ==> m[u].username == u)
    && (forall u, v :: u in m && v in m && u != v ==> m[u].id != m[v].id)
  }
}

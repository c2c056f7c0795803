/**
 * The database session and the upload folder as one in-memory store: the four tables
 * as maps from primary key to row, and the set of file names in `static/uploads`.
 * The handlers of the route modules take the store and change it only on their commit
 * path; the file helpers below are the upload and removal blocks they share.
 */
module Storage {
  import opened Wrappers
  import opened Records
  import opened Uploads
  import opened Query

  /** Every key is below `id`. */
  predicate Above(id: int, ids: set<int>)
  {
    forall k :: k in ids ==> k < id
  }

  /**
   * The primary key the database gives a new row: one more than the largest key in
   * use, or 1 in an empty table (SQLite's rowid rule for an INTEGER PRIMARY KEY).
   */
  function NextId(ids: set<int>): (r: int)
    ensures r >= 1 && Above(r, ids)
    ensures r == 1 || r - 1 in ids
  {
    if ids == {} || Max(ids) < 1 then 1 else Max(ids) + 1
  }

  /** The key is determined by the two facts above: any fresh key next to a used one (or 1) is it. */
  lemma NextIdUnique(ids: set<int>, id: int)
    requires id >= 1 && Above(id, ids) && (id == 1 || id - 1 in ids)
    ensures id == NextId(ids)
  {
  }

  /** The scan the database performs to find `NextId`. */
  method FreshId(ids: set<int>) returns (id: int)
    ensures id == NextId(ids)
  {
    var largest := 0;
    var rest := ids;
    while rest != {}
      invariant rest <= ids
      invariant largest >= 0 && (largest == 0 || largest in ids)
      invariant forall k :: k in ids && k !in rest ==> k <= largest
      decreases |rest|
    {
      HasMember(rest);
      var k :| k in rest;
      if k > largest {
        largest := k;
      }
      rest := rest - {k};
    }
    id := largest + 1;
    NextIdUnique(ids, id);
  }

  // A table is keyed by its rows' ids and every thumbnail in it is an upload reference.

  predicate CategoryTable(m: map<int, Category>)
  {
    CategoriesKeyed(m) && forall id :: id in m ==> IsUploadRef(m[id].thumbnail)
  }

  predicate SubcategoryTable(m: map<int, SubCategory>)
  {
    SubcategoriesKeyed(m) && forall id :: id in m ==> IsUploadRef(m[id].thumbnail)
  }

  predicate ArticleTable(m: map<int, Article>)
  {
    ArticlesKeyed(m) && forall id :: id in m ==> IsUploadRef(m[id].thumbnail)
  }

  // Writing a row under its own id, with an upload reference as thumbnail, keeps the table.

  lemma CategoryWriteKeepsTable(m: map<int, Category>, id: int, row: Category)
    requires CategoryTable(m) && 1 <= id && row.id == id && IsUploadRef(row.thumbnail)
    ensures CategoryTable(m[id := row])
  {
  }

  lemma SubcategoryWriteKeepsTable(m: map<int, SubCategory>, id: int, row: SubCategory)
    requires SubcategoryTable(m) && 1 <= id && row.id == id && IsUploadRef(row.thumbnail)
    ensures SubcategoryTable(m[id := row])
  {
  }

  lemma ArticleWriteKeepsTable(m: map<int, Article>, id: int, row: Article)
    requires ArticleTable(m) && 1 <= id && row.id == id && IsUploadRef(row.thumbnail)
    ensures ArticleTable(m[id := row])
  {
  }

  class Store {
    var categories: map<int, Category>
    var subcategories: map<int, SubCategory>
    var articles: map<int, Article>
    var admins: map<string, Admin>
    /** The names of the files in the upload folder. */
    var uploads: set<string>

    ghost predicate Valid()
      reads this
    {
      && CategoryTable(categories)
      && SubcategoryTable(subcategories)
      && ArticleTable(articles)
      && AdminsKeyed(admins)
      && "" !in uploads
    }

    /** An empty database and an empty upload folder. */
    constructor ()
      ensures Valid()
      ensures categories == map[] && subcategories == map[] && articles == map[]
      ensures admins == map[] && uploads == {}
    {
      categories, subcategories, articles := map[], map[], map[];
      admins, uploads := map[], {};
    }

    /**
     * `if file and allowed_file(file.filename): file.save(UPLOAD_FOLDER/secure_filename(...))`,
     * returning the URL the handler stores as the thumbnail, or None when nothing was saved.
     * A file already there under that name is overwritten.
     */
    method SaveThumbnail(file: Option<Upload>) returns (thumbnail: Option<string>)
      requires Valid()
      modifies this`uploads
      ensures Valid()
      ensures uploads == old(uploads) + SavedNames(file)
      ensures thumbnail == ThumbnailFor(file)
      ensures IsUploadRef(thumbnail)
    {
      thumbnail := None;
      SavedNamesNonEmpty(file);
      ThumbnailForIsUploadRef(file);
      if file.Some? && AllowedFile(file.value.filename) {
        var filename := SecureFilename(file.value.filename);
        assert StoredName(file) == Some(filename);
        uploads := uploads + {filename};
        thumbnail := Some(UploadUrl(filename));
      } else {
        assert StoredName(file) == None;
      }
    }

    /**
     * `if row.thumbnail: path = UPLOAD_FOLDER/basename(row.thumbnail); if exists(path): remove(path)`.
     * A missing file is not an error.
     */
    method RemoveThumbnail(thumbnail: Option<string>)
      requires Valid() && IsUploadRef(thumbnail)
      modifies this`uploads
      ensures Valid()
      ensures uploads == old(uploads) - ReclaimedNames(thumbnail)
    {
      if thumbnail.Some? && thumbnail.value != "" {
        var name := Basename(thumbnail.value);
        if name in uploads {
          uploads := uploads - {name};
        }
      }
    }
  }
}

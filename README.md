# Flask blog API — content handlers, verified model

This project models the request handlers of a small Flask blog back end. It covers:

- the category, subcategory and article endpoints (create, list, look up, update, delete);
- admin registration and login;
- the dashboard statistics.

The handlers run against an in-memory store. `Storage.Store` is a class that holds:

- the category, subcategory and article tables, as maps from primary key to row;
- the admin table, keyed by username;
- the set of file names in the `static/uploads` folder.

**Writing handlers.** Each writing handler is a method. It takes the parsed form fields and an `authorized` flag, which stands for `@jwt_required()`. It returns the JSON reply with its status code. It changes the store only on the path that reaches `db.session.commit()`. On every early return the store is left `unchanged`, including the update handlers' 404 after fields were already assigned on the fetched row. The update handlers edit a local copy of the row and write it back on the commit line. The new row is specified by a pure function (`EditCategory`, `EditSubcategory`, `EditArticle`).

**Reading handlers.** The reading handlers are functions over the tables.

**Library calls.** The library calls the handlers depend on get concrete, proved stand-ins rather than assumed facts:

- `allowed_file`, modelled once for its three copies;
- werkzeug's `secure_filename`, the ASCII algorithm;
- `url_for(..., _external=True)`;
- `os.path.basename`.

So "delete removes the file that create saved" is a theorem (`Uploads.DeleteReclaimsSavedFile`).

**Passwords and tokens.** Password hashing is a `PasswordHasher` value. Its library guarantees are the hypotheses `Sound` and `Hiding`. A login token is modelled by its identity and expiry instant.

**Modules, one per file:**

- `Text`: lower-casing, text after the last separator, substring search.
- `SqlLike`: SQL LIKE and the ILIKE filter as written.
- `Uploads`: the upload rules.
- `Records`: rows, replies and the two partial-update rules.
- `Query`: row orders and the search filter.
- `Storage`: fresh ids, the store, and the file save and remove blocks.
- `CategoryRoutes`, `SubcategoryRoutes`, `ArticleRoutes`, `Auth`, `DashboardRoutes`: the handlers.
- `Scenarios`: two request sequences with their replies.

## Model

| member | source | states |
|---|---|---|
| Text.AfterLast | routes/article.py:16 | the result is the longest suffix free of the separator; it follows the last separator when there is one, and is the whole string otherwise (`rsplit(c, 1)[1]`, `basename`) |
| Text.AfterLastUnique | routes/article.py:16 | any separator-free suffix preceded by the separator is exactly the text after the last separator |
| Text.EmptyQueryMatchesEverything | routes/subcategory.py:53-58 | the empty search text is contained in every title |
| Uploads.AllowedFileSpec | routes/article.py:15-16 | `allowed_file(f)` holds iff some position holds a '.' with no '.' after it, and the text after it lower-cases to png, jpg, jpeg or gif |
| Uploads.AllowedFileAccepts | routes/article.py:10-16 | "a.PNG", "photo.v2.JpEg" and ".gif" are accepted |
| Uploads.AllowedFileRejects | routes/article.py:10-16 | "png", "x." and "x.png.exe" are refused |
| Uploads.SecureFilenameIsSafe | routes/article.py:37-38 | a sanitised name holds only [A-Za-z0-9_.-], so it has no '/', and does not start with '.'; with `AllowedNameSurvivesSanitising` (non-empty) it is never "", "." or "..", so the saved file lies inside the upload folder |
| Uploads.AllowedNameSurvivesSanitising | routes/article.py:36-38 | an accepted name sanitises to a non-empty name ending in the extension's last letter |
| Uploads.BasenameOfUploadUrl | routes/article.py:165 | the basename of the stored thumbnail URL is the saved file name |
| Uploads.DeleteReclaimsSavedFile | routes/article.py:164-167 | a delete reclaims exactly the file the create or update saved, and nothing for a row saved without an accepted file |
| Uploads.SavedNamesNonEmpty | routes/article.py:37-39 | the handlers never save under the empty name |
| Uploads.ThumbnailForIsUploadRef | routes/article.py:35-40 | every thumbnail a handler writes is None or a URL whose basename is non-empty and does not start with '.', so a later delete targets a file inside the folder, never the folder itself |
| Uploads.NewThumbnailIsUploadRef | routes/article.py:143-149 | an update keeps the row's thumbnail such a reference, whether or not a new file was accepted |
| Records.PartialUpdateRulesDiffer | routes/article.py:126-129 | the article rule (present field overwrites) and the subcategory/category rule (non-empty field overwrites) agree except on a present empty field, which only the article rule writes |
| Records.CategoryTitle | routes/subcategory.py:67 | the parent's title when the parent row exists, None otherwise |
| Query.Ascending | routes/category.py:43 | every key exactly once, in strictly increasing order (unordered `.all()`) |
| Query.Descending | routes/article.py:96 | at most n keys, strictly decreasing, every unlisted key smaller than every listed one (`order_by(id.desc()).limit(n)`) |
| Query.Matching | routes/subcategory.py:56 | keeps exactly the ids whose title contains the search text ignoring case, preserving increasing order |
| Query.Search | routes/subcategory.py:55-58 | increasing ids; an id is listed iff its title contains the search text ignoring case; the empty search lists every id |
| SqlLike.IlikeIsSubstringWithoutWildcards | routes/article.py:59-60 | for search text without '%' or '_', the ILIKE filter as written is the case-insensitive substring test |
| SqlLike.UnderscoreIsAWildcard | routes/subcategory.py:56 | as written, searching "a_c" lists a title "ABC", which does not contain "a_c" |
| Storage.NextId | routes/article.py:46-47 | the new primary key is at least 1, above every key in use, and either 1 or next to a used key |
| Storage.NextIdUnique | routes/article.py:46-47 | those facts determine the new key |
| Storage.FreshId | routes/article.py:46-47 | the scan over the keys returns NextId |
| Storage.Store.SaveThumbnail | routes/article.py:35-40 | the folder gains exactly the saved name; the returned thumbnail is the URL of the sanitised name, or None when no accepted file was sent, and is an upload reference; the store invariant (every table keyed by id, every thumbnail an upload reference) is kept |
| Storage.Store.RemoveThumbnail | routes/article.py:164-167 | for a thumbnail the handlers wrote (an upload reference, which the store invariant guarantees for every row), the folder loses basename(thumbnail) when the row has one; a missing file is not an error |
| CategoryRoutes.CreateCategory | routes/category.py:18-39 | 401 without a token; 400 with title or slug missing or empty, nothing changed; else 201 with exactly one new row under the next id, carrying the given fields and the thumbnail of an accepted file (None otherwise), and the folder gains the saved file |
| CategoryRoutes.GetCategories | routes/category.py:41-44 | every category exactly once, as its stored id, title, slug and thumbnail, in ascending id order |
| CategoryRoutes.UpdateCategory | routes/category.py:46-70 | 401; 404 for an unknown id with nothing changed; else the row becomes EditCategory of it (non-empty title/slug overwrite, an accepted file replaces the thumbnail), the reply carries the row's thumbnail, and the folder only grows (the replaced file stays) |
| CategoryRoutes.EditCategoryIdempotent | routes/category.py:57-67 | applying the same category update twice equals applying it once |
| CategoryRoutes.DeleteCategory | routes/category.py:73-88 | 401; 404 for an unknown id with nothing changed; else exactly that row goes, its thumbnail file is reclaimed, and subcategories and articles are untouched |
| SubcategoryRoutes.CreateSubcategory | routes/subcategory.py:20-47 | 401; 400 with title, slug or category_id missing or empty; 404 when the category does not exist; both leave everything unchanged; else 201 with exactly one new row under the next id, and the folder gains the saved file |
| SubcategoryRoutes.GetSubcategories | routes/subcategory.py:51-70 | lists a subcategory iff its title contains the search text ignoring case (all of them for the empty search), in ascending id order, each with its stored fields and its parent's title or None |
| SubcategoryRoutes.UpdateSubcategory | routes/subcategory.py:74-104 | 401; 404 for an unknown id; 404 for a given category_id with no category, with the title/slug assignments not committed; else the row becomes EditSubcategory of it, and the folder only grows |
| SubcategoryRoutes.EditSubcategoryIdempotent | routes/subcategory.py:86-101 | applying the same subcategory update twice equals applying it once |
| SubcategoryRoutes.EmptyUpdateKeepsRow | routes/subcategory.py:86-101 | for every row: an update whose title and slug are absent or empty, with no category_id and no accepted file, leaves the row as it was |
| SubcategoryRoutes.DeleteSubcategory | routes/subcategory.py:108-123 | 401; 404 for an unknown id; else exactly that row goes and its thumbnail file is reclaimed |
| ArticleRoutes.CreateArticle | routes/article.py:19-49 | 401; 400 with title, slug, body or category_id missing or empty; 404 when the category does not exist (no row, no file); else 201 with exactly one new row under the next id, and the folder gains the saved file |
| ArticleRoutes.GetArticles | routes/article.py:52-76 | lists an article iff its title contains the search text ignoring case (all of them for the empty search), in ascending id order, each with its stored fields and its category's title or None |
| ArticleRoutes.GetArticleBySlug | routes/article.py:78-92 | None (404) iff no article has the slug; else the article with that slug and the smallest id, with its category's title |
| ArticleRoutes.PreviewText | routes/article.py:103 | the first min(200, length) characters of the body followed by "..." |
| ArticleRoutes.ShortBodyStillGetsEllipsis | routes/article.py:103 | a body of at most 200 characters is shown whole, still followed by "..." |
| ArticleRoutes.LongBodyIsCut | routes/article.py:103 | a longer body is cut to exactly 200 characters before the "..." |
| ArticleRoutes.GetLatestArticles | routes/article.py:94-108 | min(3, count) articles, strictly decreasing ids, every article with an id at least a listed one's is listed at or before it; each body is its preview |
| ArticleRoutes.LatestAreLargest | routes/article.py:96 | among decreasing keys that exceed every unlisted key, any key at least a listed one is listed no later than it |
| ArticleRoutes.UpdateArticle | routes/article.py:111-153 | 401; 404 for an unknown id; 404 for a category_id that differs from the stored one and names no category, with nothing committed; else the row becomes EditArticle of it (present fields overwrite, even when empty), and the folder only grows |
| ArticleRoutes.EditArticleIdempotent | routes/article.py:121-149 | applying the same article update twice equals applying it once |
| ArticleRoutes.EditedCategoryExists | routes/article.py:131-136 | after an update that passed the check, the row's category exists unless it is the one it already had |
| ArticleRoutes.DeleteArticle | routes/article.py:155-171 | 401; 404 for an unknown id; else exactly that row goes and its thumbnail file is reclaimed; other rows are untouched |
| Auth.Register | auth.py:9-26 | OPTIONS: 200, nothing changed; an existing username: 400, nothing changed; else 201 and exactly one admin added under that username with the next id and password hash(password); every existing admin is kept unchanged (the duplicate check never overwrites an account); with a hiding hasher the stored password is not the plaintext; the table stays keyed by username, so usernames stay unique |
| Auth.Login | auth.py:28-44 | OPTIONS: 200; a token iff the username exists and the password checks against its stored hash; the token's identity is the username and it expires 7 days after now; otherwise 401 "Invalid credentials" |
| Auth.LoginAfterRegister | auth.py:21-42 | with a sound hasher, the registered password logs in |
| Auth.RefusalHidesUsername | auth.py:37-39 | a refused login is the same 401 reply as for an unknown username |
| DashboardRoutes.GetDashboardStats | routes/dashboard.py:7-18 | figures only for an authorized request; each is the row count of its table |
| DashboardRoutes.StatsCountListings | routes/dashboard.py:10-12 | each figure is the length of the unfiltered listing of its table |
| Scenarios.RegisterLoginAndList | auth.py:18-26 | registering "alice" twice answers 201 then 400; logging in gives a token for alice; after creating Tech/tech the listing is exactly [Category(1, "Tech", "tech", None)] |
| Scenarios.ArticleUnderDeletedCategory | routes/article.py:31-33 | creating an article under a category deleted just before answers 404 and stores no article |

## Findings

| source | as written | input that shows it | evidently intended | confidence | as-written member | corrected member |
|---|---|---|---|---|---|---|
| routes/subcategory.py:56, routes/article.py:60 | the search text is spliced unescaped into an ILIKE pattern, so '%' and '_' in it are wildcards | search "a_c" lists the title "ABC" | list the titles that contain the search text, ignoring case | medium, not executed | SqlLike.UnderscoreIsAWildcard | Query.Search |

`GetSubcategories` and `GetArticles` use the substring filter `Query.Search`. `SqlLike.IlikeIsSubstringWithoutWildcards` shows that the two filters agree whenever the search text has no '%' or '_'.

## Left out

**Excluded files and features**

- Pagination of GET /articles (`page`, `per_page`, `total_pages`, `current_page`): library arithmetic. The model returns the whole filtered list.
- routes/gemini.py, routes/image_ocr.py, routes/texttospeech.py: proxies to external services. app.py, config.py and routes/__init__.py: wiring. routes/article_routes.py: an unregistered blueprint. None of these is modelled.
- Token signing and verification: `@jwt_required()` is the `authorized` input. A token is its identity and expiry.
- Password hashing internals: only the `Sound` and `Hiding` hypotheses are used.

**Request parsing**

- Form ids are strings in the source and ints in the model. `Option<int>` is None when the field is absent or empty.
  - A non-numeric id is modelled as an id that names no category.
  - The string-versus-int comparison at routes/article.py:132 is not modelled.
  - A JSON `category_id` of 0 is falsy in the source. This is not modelled: only the form path is, and both paths use the same rule.
- Missing username or password: the model takes both fields as strings, so these requests are not modelled. In the source:
  - Login with a missing username queries `username IS NULL`, finds no admin and answers 401 "Invalid credentials" (auth.py:37-39). An unknown username with a missing password gets the same 401, because the password is never checked. Only an existing username with a missing password fails, inside `check_password_hash`.
  - Register with a missing password fails inside `generate_password_hash` (auth.py:21). A missing username with a password reaches the insert, whose outcome depends on the column definition in models.py, which is not part of this model.
- A body that is not JSON: the source fails inside the request parser. Not modelled.

**Assumptions about the environment**

- `Storage.NextId`: a new row gets one more than the largest key in use, or 1 for an empty table, so the id of a deleted highest row is reused. This is SQLite's rowid rule for an integer primary key without AUTOINCREMENT. The table definitions are in models.py, which is not part of this model.
- Rows are assumed to be written only by these handlers. The store invariant says every thumbnail is None or a URL whose basename is a non-empty name not starting with '.'. A thumbnail written by other means, such as one ending in '/', falls outside the model. For such a row the source's `os.remove` would fail on the folder itself.
- Unordered queries (`.all()`, `.first()`) are assumed to return rows in ascending id order, which is SQLite's rowid scan.
- `url_for(..., _external=True)` takes its host from the request. The model fixes it to one constant host.
- werkzeug's `secure_filename` is modelled for ASCII input only: non-ASCII characters are dropped. Unicode NFKD normalisation and the Windows device-name rule are not modelled.
- Concurrent requests are not modelled. The file system is a set of names: file contents, and collisions when two uploads share a sanitised name, are not modelled. The later save overwrites.
- ORM cascade settings live in models.py, which is not part of this model. Deleting a category touches no other table in the model, as in the handler.

**Stated differently from the source**

- GetSubcategories: filters by substring. The as-written ILIKE wildcard behaviour is in `SqlLike` (see Findings).
- GetArticles: filters by substring. The as-written ILIKE wildcard behaviour is in `SqlLike` (see Findings).

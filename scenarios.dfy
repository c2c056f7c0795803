/**
 * Request sequences against a fresh store, with the replies the handler contracts fix.
 */
module Scenarios {
  import opened Wrappers
  import opened Records
  import opened Uploads
  import opened Storage
  import opened Auth
  import CategoryRoutes
  import ArticleRoutes

  /**
   * Register "alice" twice, log in with the first password, create the category
   * Tech/tech and list the categories.
   */
  method RegisterLoginAndList(hasher: PasswordHasher, now: int)
    returns (first: Reply, second: Reply, login: LoginReply, listing: seq<Category>)
    requires Sound(hasher)
    ensures first == Message(201, ADMIN_REGISTERED)
    ensures second == Message(400, USERNAME_TAKEN)
    ensures login == AccessToken("alice", now + TOKEN_LIFETIME)
    ensures listing == [Category(1, "Tech", "tech", None)]
  {
    var s := new Store();
    assert AdminIds(s.admins) == {};
    first := Register(s, Post, "alice", "pw1", hasher);
    var admins := s.admins;
    assert admins == map["alice" := Admin(1, "alice", hasher.hash("pw1"))];
    second := Register(s, Post, "alice", "pw2", hasher);
    LoginAfterRegister(map[], 1, "alice", "pw1", hasher, now);
    login := Login(s.admins, Post, "alice", "pw1", hasher, now);
    assert ThumbnailFor(None) == None;
    var created := CategoryRoutes.CreateCategory(s, true, Some("Tech"), Some("tech"), None);
    var categories := s.categories;
    assert categories == map[1 := Category(1, "Tech", "tech", None)];
    listing := CategoryRoutes.GetCategories(categories);
    assert |listing| == 1 && listing[0].id in categories;
  }

  /** An article naming a category deleted a moment before is refused, and none is stored. */
  method ArticleUnderDeletedCategory() returns (deleted: Reply, refused: Reply, articles: map<int, Article>)
    ensures deleted == Message(200, CategoryRoutes.CATEGORY_DELETED)
    ensures refused == Message(404, CATEGORY_NOT_FOUND)
    ensures articles == map[]
  {
    var s := new Store();
    assert ThumbnailFor(None) == None;
    var created := CategoryRoutes.CreateCategory(s, true, Some("Tech"), Some("tech"), None);
    assert s.categories == map[1 := Category(1, "Tech", "tech", None)];
    deleted := CategoryRoutes.DeleteCategory(s, true, 1);
    refused := ArticleRoutes.CreateArticle(s, true, Some("Hello"), Some("hello"), Some("First post"), Some(1), None);
    articles := s.articles;
  }
}

/** The statistics handler of routes/dashboard.py. */
module DashboardRoutes {
  import opened Wrappers
  import opened Records
  import CategoryRoutes
  import SubcategoryRoutes
  import ArticleRoutes

  /** `{"categories": ..., "subcategories": ..., "articles": ...}` */
  datatype Stats = Stats(categories: nat, subcategories: nat, articles: nat)

  /**
   * GET /dashboard-stats: the row count of each content table, or None when the request
   * carries no valid token (the 401 reply). Counting changes nothing.
   */
  function GetDashboardStats(authorized: bool, categories: map<int, Category>, subcategories: map<int, SubCategory>,
                             articles: map<int, Article>): (r: Option<Stats>)
    ensures r.Some? <==> authorized
    ensures r.Some? ==> r.value.categories == |categories| && r.value.subcategories == |subcategories|
                        && r.value.articles == |articles|
  {
    if authorized then Some(Stats(|categories|, |subcategories|, |articles|)) else None
  }

  /** Each figure is the length of the corresponding unfiltered listing. */
  lemma StatsCountListings(categories: map<int, Category>, subcategories: map<int, SubCategory>,
                           articles: map<int, Article>)
    requires CategoriesKeyed(categories) && SubcategoriesKeyed(subcategories) && ArticlesKeyed(articles)
    ensures GetDashboardStats(true, categories, subcategories, articles) == Some(Stats(
      |CategoryRoutes.GetCategories(categories)|,
      |SubcategoryRoutes.GetSubcategories(subcategories, categories, "")|,
      |ArticleRoutes.GetArticles(articles, categories, "")|))
  {
  }
}

/**
 * The row orders of the SQL queries the handlers issue: `Model.query.all()` and
 * `.first()` without ORDER BY scan rows in ascending id (rowid) order,
 * `order_by(Model.id.desc()).limit(n)` keeps the n largest ids in descending order,
 * and `filter(Model.title.ilike('%q%'))` keeps the rows whose title contains q.
 */
module Query {
  import opened Text

  predicate Increasing(s: seq<int>)
  {
    forall i, j :: 0 <= i < j < |s| ==> s[i] < s[j]
  }

  predicate Decreasing(s: seq<int>)
  {
    forall i, j :: 0 <= i < j < |s| ==> s[i] > s[j]
  }

  lemma HasMember(ids: set<int>)
    requires ids != {}
    ensures exists x :: x in ids
  {
    if forall y :: y !in ids {
      assert false;
    }
  }

  lemma {:induction false} MaxExists(ids: set<int>)
    requires ids != {}
    ensures exists m :: m in ids && forall k :: k in ids ==> k <= m
    decreases |ids|
  {
    HasMember(ids);
    var x :| x in ids;
    var rest := ids - {x};
    if rest == {} {
      assert ids == {x} by { assert forall k :: k in ids ==> k == x || k in rest; }
    } else {
      MaxExists(rest);
      var hi :| hi in rest && forall k :: k in rest ==> k <= hi;
      var top := if hi < x then x else hi;
      assert top in ids && forall k :: k in ids ==> k <= top by {
        forall k | k in ids ensures k <= top { if k != x { assert k in rest; } }
      }
    }
  }

  lemma {:induction false} MinExists(ids: set<int>)
    requires ids != {}
    ensures exists m :: m in ids && forall k :: k in ids ==> m <= k
    decreases |ids|
  {
    HasMember(ids);
    var x :| x in ids;
    var rest := ids - {x};
    if rest == {} {
      assert ids == {x} by { assert forall k :: k in ids ==> k == x || k in rest; }
    } else {
      MinExists(rest);
      var lo :| lo in rest && forall k :: k in rest ==> lo <= k;
      var bottom := if x < lo then x else lo;
      assert bottom in ids && forall k :: k in ids ==> bottom <= k by {
        forall k | k in ids ensures bottom <= k { if k != x { assert k in rest; } }
      }
    }
  }

  function Max(ids: set<int>): (m: int)
    requires ids != {}
    ensures m in ids && forall k :: k in ids ==> k <= m
  {
    MaxExists(ids);
    var m :| m in ids && forall k :: k in ids ==> k <= m;
    m
  }

  function Min(ids: set<int>): (m: int)
    requires ids != {}
    ensures m in ids && forall k :: k in ids ==> m <= k
  {
    MinExists(ids);
    var m :| m in ids && forall k :: k in ids ==> m <= k;
    m
  }

  /** Every id of the table, in ascending order. */
  function Ascending(ids: set<int>): (r: seq<int>)
    ensures |r| == |ids| && Increasing(r)
    ensures forall k :: k in r <==> k in ids
    ensures forall i :: 0 <= i < |r| ==> r[i] in ids
    decreases |ids|
  {
    if ids == {} then []
    else
      var m := Max(ids);
      Ascending(ids - {m}) + [m]
  }

  /** The `n` largest ids, largest first. */
  function Descending(ids: set<int>, n: nat): (r: seq<int>)
    ensures |r| == if n < |ids| then n else |ids|
    ensures Decreasing(r)
    ensures forall i :: 0 <= i < |r| ==> r[i] in ids
    ensures forall k, i :: k in ids && k !in r && 0 <= i < |r| ==> k < r[i]
    decreases n
  {
    if n == 0 || ids == {} then []
    else
      var m := Max(ids);
      var tail := Descending(ids - {m}, n - 1);
      [m] + tail
  }

  /** The ids, in their given order, whose title contains `query` ignoring case. */
  function Matching(ids: seq<int>, titles: map<int, string>, query: string): (r: seq<int>)
    requires forall k :: k in ids ==> k in titles
    ensures forall k :: k in r <==> k in ids && ContainsIgnoringCase(titles[k], query)
    ensures Increasing(ids) ==> Increasing(r)
  {
    if ids == [] then []
    else
      var rest := Matching(ids[1..], titles, query);
      assert forall k :: k in ids <==> k == ids[0] || k in ids[1..];
      if ContainsIgnoringCase(titles[ids[0]], query) then
        assert Increasing(ids) ==> Increasing([ids[0]] + rest) by {
          if Increasing(ids) {
            forall i | 0 <= i < |rest| ensures ids[0] < rest[i] {
              assert rest[i] in rest;
              var j :| 0 <= j < |ids[1..]| && ids[1..][j] == rest[i];
              assert ids[j + 1] == rest[i];
            }
          }
        }
        [ids[0]] + rest
      else rest
  }

  /** The title column of a table keyed by id. */
  function Titles<T>(rows: map<int, T>, title: T -> string): (r: map<int, string>)
    ensures r.Keys == rows.Keys
    ensures forall id :: id in r ==> r[id] == title(rows[id])
  {
    map id | id in rows :: title(rows[id])
  }

  /**
   * The ids a listing with `?search=` returns, in ascending order: every id when the search
   * text is empty (`if search_query:` skips the filter), otherwise the ids whose title
   * contains the search text ignoring case.
   */
  function Search(titles: map<int, string>, search: string): (r: seq<int>)
    ensures Increasing(r)
    ensures forall k :: k in r <==> k in titles && ContainsIgnoringCase(titles[k], search)
    ensures forall i :: 0 <= i < |r| ==> r[i] in titles
    ensures search == "" ==> |r| == |titles.Keys|
  {
    var ids := Ascending(titles.Keys);
    if search == "" then
      assert forall k :: k in titles ==> ContainsIgnoringCase(titles[k], search) by {
        forall k | k in titles ensures ContainsIgnoringCase(titles[k], search) {
          EmptyQueryMatchesEverything(titles[k]);
        }
      }
      ids
    else
      var r := Matching(ids, titles, search);
      assert forall i :: 0 <= i < |r| ==> r[i] in r;
      r
  }

  /** The rows under `ids`, in that order. */
  function Rows<T>(ids: seq<int>, m: map<int, T>): (r: seq<T>)
    requires forall i :: 0 <= i < |ids| ==> ids[i] in m
    ensures |r| == |ids| && forall i :: 0 <= i < |ids| ==> r[i] == m[ids[i]]
  {
    if ids == [] then [] else [m[ids[0]]] + Rows(ids[1..], m)
  }
}

/** The sort page (project/posts/sort.php): every post, in the order the
    allow-listed sort key chooses. */
module Sort {
  import opened Php
  import opened PostQuery

  /** The statement text: the joined SELECT with the ORDER BY line inside
      the same literal, and no placeholder. */
  function SqlText(direction: string): string
  {
    SelectPosts + "    ORDER BY p.created_at " + direction + "\n"
  }

  /** The page's allow-list: the direction defaults to descending; exactly
      "oldest" switches to ascending, anything else is reset to "newest";
      each branch sets its own label. */
  method ResolveSort(requested: string) returns (sort: string, orderDirection: string, sortLabel: string)
    ensures SortAllowList(requested, sort, orderDirection, sortLabel)
    ensures IsDirection(orderDirection)
  {
    sort := requested;
    orderDirection := "DESC";
    if sort == "oldest" {
      orderDirection := "ASC";
      sortLabel := "Oudste eerst";
    } else {
      sort := "newest";
      sortLabel := "Nieuwste eerst";
    }
  }

  /** The page: read the key (default "newest"), resolve it, build the
      statement. It is executed without bound values. */
  method Build(query: map<string, string>) returns (sort: string, orderDirection: string, sortLabel: string, sql: string)
    ensures SortAllowList(SortKey(query), sort, orderDirection, sortLabel)
    ensures sql == SqlText(orderDirection)
  {
    sort := StringParam(query, "sort", "newest");
    sort, orderDirection, sortLabel := ResolveSort(sort);
    sql := SqlText(orderDirection);
  }

  /** Only two statements are possible: the caller's key picks one of them
      and never reaches the text. */
  lemma TwoStatements(requested: string, sort: string, direction: string, sortLabel: string)
    requires SortAllowList(requested, sort, direction, sortLabel)
    ensures SqlText(direction) == SqlText("ASC") || SqlText(direction) == SqlText("DESC")
    ensures SqlText(direction) == SqlText("ASC") <==> requested == "oldest"
  {
    if requested != "oldest" {
      assert |SqlText("DESC")| != |SqlText("ASC")|;
    }
  }

  /** Without a `sort` parameter the page shows newest first. */
  lemma DefaultIsNewest(query: map<string, string>, sort: string, direction: string, sortLabel: string)
    requires "sort" !in query
    requires SortAllowList(SortKey(query), sort, direction, sortLabel)
    ensures sort == "newest" && direction == "DESC" && sortLabel == "Nieuwste eerst"
  {
  }
}

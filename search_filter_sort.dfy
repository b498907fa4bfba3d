/** The combined read page (project/posts/search_filter_sort.php): an
    optional title search, an optional category filter and an allow-listed
    sort order, assembled step by step into one prepared statement and the
    map of values bound to its placeholders. */
module SearchFilterSort {
  import opened Php
  import opened PostQuery

  /** The predicates that apply, in the order search, then category. */
  function WhereParts(hasSearch: bool, hasCategory: bool): seq<string>
  {
    (if hasSearch then [SearchPredicate] else []) + (if hasCategory then [CategoryPredicate] else [])
  }

  /** The statement text. Its only inputs are whether a search and a
      category filter apply and the direction: no text a caller supplies can
      reach it. */
  function SqlText(hasSearch: bool, hasCategory: bool, direction: string): string
  {
    var parts := WhereParts(hasSearch, hasCategory);
    var filtered := if |parts| > 0 then SelectPosts + " WHERE " + Implode(" AND ", parts) else SelectPosts;
    filtered + " ORDER BY p.created_at " + direction + " "
  }

  /** The values bound to the placeholders of `SqlText`. */
  function BoundParams(search: string, categoryId: int): map<string, Param>
  {
    var none: map<string, Param> := map[];
    var m := if search != "" then none[":search" := SearchParam(search)] else none;
    if categoryId > 0 then m[":category_id" := Int(categoryId)] else m
  }

  /** The sort whitelist of the page: the direction and label default to
      newest first; exactly "oldest" switches both to oldest first, and any
      other key is reset to "newest". */
  method ResolveSort(requested: string) returns (sort: string, orderDirection: string, sortLabel: string)
    ensures SortAllowList(requested, sort, orderDirection, sortLabel)
    ensures IsDirection(orderDirection)
  {
    sort := requested;
    orderDirection := "DESC";
    sortLabel := "Nieuwste eerst";
    if sort == "oldest" {
      orderDirection := "ASC";
      sortLabel := "Oudste eerst";
    } else {
      sort := "newest";
    }
  }

  /** The page's query construction, statement by statement: normalise the
      inputs, resolve the sort key through the allow-list, collect the
      predicates and their parameters, add WHERE when there is a predicate,
      add ORDER BY. The statement text depends on the request only through
      which filters apply and the allow-listed direction. */
  method Build(query: map<string, string>)
    returns (sql: string, params: map<string, Param>, sort: string, orderDirection: string, sortLabel: string)
    ensures IsDirection(orderDirection)
    ensures SortAllowList(SortKey(query), sort, orderDirection, sortLabel)
    ensures sql == SqlText(SearchTerm(query) != "", CategoryFilter(query) > 0, orderDirection)
    ensures params == BoundParams(SearchTerm(query), CategoryFilter(query))
  {
    var search := Trim(StringParam(query, "q", ""));
    var selectedCategoryId := IntParam(query, "category_id");
    sort := StringParam(query, "sort", "newest");
    sort, orderDirection, sortLabel := ResolveSort(sort);

    sql := SelectPosts;
    var whereParts: seq<string> := [];
    params := map[];

    if search != "" {
      whereParts := whereParts + [SearchPredicate];
      params := params[":search" := Text("%" + search + "%")];
    }
    if selectedCategoryId > 0 {
      whereParts := whereParts + [CategoryPredicate];
      params := params[":category_id" := Int(selectedCategoryId)];
    }
    assert whereParts == WhereParts(search != "", selectedCategoryId > 0);
    assert params == BoundParams(search, selectedCategoryId);
    if |whereParts| > 0 {
      sql := sql + " WHERE " + Implode(" AND ", whereParts);
    }
    sql := sql + " ORDER BY p.created_at " + orderDirection + " ";
  }

  /** The bound values: `:search` is present iff there is a search term and
      then holds the term between two wildcards; `:category_id` is present
      iff the id is positive and then holds the id; nothing else is bound. */
  lemma BoundParamsShape(search: string, categoryId: int)
    ensures var params := BoundParams(search, categoryId);
            && (":search" in params <==> search != "")
            && (":search" in params ==> params[":search"] == Text("%" + search + "%"))
            && (":category_id" in params <==> categoryId > 0)
            && (":category_id" in params ==> params[":category_id"] == Int(categoryId))
            && params.Keys <= {":search", ":category_id"}
  {
  }

  /** Every predicate has exactly one bound parameter and every parameter
      belongs to one predicate: as many parameters as predicates, `:search`
      with the LIKE predicate and `:category_id` with the equality. */
  lemma PartsMatchParams(search: string, categoryId: int)
    ensures var parts := WhereParts(search != "", categoryId > 0);
            var params := BoundParams(search, categoryId);
            && |parts| == |params|
            && (SearchPredicate in parts <==> ":search" in params)
            && (CategoryPredicate in parts <==> ":category_id" in params)
  {
    var params := BoundParams(search, categoryId);
    if search != "" && categoryId > 0 {
      assert params.Keys == {":search", ":category_id"};
      assert |params.Keys| == 2;
    } else if search != "" {
      assert params.Keys == {":search"};
    } else if categoryId > 0 {
      assert params.Keys == {":category_id"};
    } else {
      assert params == map[];
    }
  }

  /** The four statements the page can produce: WHERE appears iff a
      predicate applies, the predicates are joined by AND in the order
      search then category, and the text always ends with the ORDER BY
      clause of the direction. */
  lemma SqlTextShapes(direction: string)
    ensures SqlText(false, false, direction)
            == SelectPosts + " ORDER BY p.created_at " + direction + " "
    ensures SqlText(true, false, direction)
            == SelectPosts + " WHERE " + SearchPredicate + " ORDER BY p.created_at " + direction + " "
    ensures SqlText(false, true, direction)
            == SelectPosts + " WHERE " + CategoryPredicate + " ORDER BY p.created_at " + direction + " "
    ensures SqlText(true, true, direction)
            == SelectPosts + " WHERE " + SearchPredicate + " AND " + CategoryPredicate
               + " ORDER BY p.created_at " + direction + " "
  {
    assert WhereParts(true, true) == [SearchPredicate, CategoryPredicate];
    assert [SearchPredicate, CategoryPredicate] == [SearchPredicate] + [CategoryPredicate];
    ImplodeAppend(" AND ", [SearchPredicate], CategoryPredicate);
  }

  /** Two requests that differ only in their text (the search term, the
      digits of the category id, an unknown sort key) but agree on which
      filters apply and on whether "oldest" was asked for produce the same
      statement text; they differ only in the bound values. */
  lemma SqlIgnoresCallerText(q1: map<string, string>, q2: map<string, string>,
                             k1: string, d1: string, s1: string,
                             k2: string, d2: string, s2: string)
    requires (SearchTerm(q1) == "") == (SearchTerm(q2) == "")
    requires (CategoryFilter(q1) > 0) == (CategoryFilter(q2) > 0)
    requires (SortKey(q1) == "oldest") == (SortKey(q2) == "oldest")
    requires SortAllowList(SortKey(q1), k1, d1, s1) && SortAllowList(SortKey(q2), k2, d2, s2)
    ensures SqlText(SearchTerm(q1) != "", CategoryFilter(q1) > 0, d1)
            == SqlText(SearchTerm(q2) != "", CategoryFilter(q2) > 0, d2)
  {
  }

  /** With no query parameters: no WHERE clause, no bound values, newest first. */
  lemma NoQueryParameters(sort: string, direction: string, sortLabel: string)
    requires SortAllowList(SortKey(map[]), sort, direction, sortLabel)
    ensures BoundParams(SearchTerm(map[]), CategoryFilter(map[])) == map[]
    ensures sort == "newest" && direction == "DESC"
    ensures SqlText(SearchTerm(map[]) != "", CategoryFilter(map[]) > 0, direction)
            == SelectPosts + " ORDER BY p.created_at DESC "
  {
    EmptyQueryDefaults();
  }

  /** `?q=PDO&category_id=0&sort=oldest` normalises to the term "PDO", no
      category filter and the key "oldest". */
  lemma PdoOldestInputs(q: map<string, string>)
    requires "q" in q && q["q"] == "PDO"
    requires "category_id" in q && q["category_id"] == "0"
    requires "sort" in q && q["sort"] == "oldest"
    ensures SearchTerm(q) == "PDO" && CategoryFilter(q) == 0 && SortKey(q) == "oldest"
  {
    assert TrimLeft("PDO") == "PDO";
    IntCastOfDecimal(0);
    assert DecimalString(0) == "0";
  }

  /** For those inputs the statement has the title predicate only and
      ascending order, and the term is bound as `%PDO%`. */
  lemma PdoOldestStatement()
    ensures BoundParams("PDO", 0) == map[":search" := Text("%PDO%")]
    ensures SqlText(true, false, "ASC") == SelectPosts + " WHERE " + SearchPredicate + " ORDER BY p.created_at " + "ASC" + " "
  {
    assert "%" + "PDO" + "%" == "%PDO%";
    SqlTextShapes("ASC");
  }
}

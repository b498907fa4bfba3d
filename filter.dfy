/** The filter page (project/posts/filter.php): an optional category
    filter, newest first. */
module Filter {
  import opened Php
  import opened PostQuery

  const CategoryEquals: string := " WHERE p.category_id = :category_id "
  const NewestFirst: string := " ORDER BY p.created_at DESC "

  /** The statement text: decided by whether the filter applies. */
  function SqlText(hasCategory: bool): string
  {
    SelectPosts + (if hasCategory then CategoryEquals else "") + NewestFirst
  }

  function BoundParams(categoryId: int): map<string, Param>
  {
    if categoryId > 0 then map[":category_id" := Int(categoryId)] else map[]
  }

  /** The page's query construction: cast the chosen id, extend the
      statement with the equality predicate and bind the id when it is
      positive, then order newest first. */
  method Build(query: map<string, string>) returns (selectedCategoryId: int, sql: string, params: map<string, Param>)
    ensures selectedCategoryId == CategoryFilter(query)
    ensures sql == SqlText(selectedCategoryId > 0)
    ensures params == BoundParams(selectedCategoryId)
  {
    selectedCategoryId := IntParam(query, "category_id");
    sql := SelectPosts;
    params := map[];
    if selectedCategoryId > 0 {
      sql := sql + CategoryEquals;
      params := params[":category_id" := Int(selectedCategoryId)];
    }
    sql := sql + NewestFirst;
  }

  /** An id of 0 or less shows every post (no WHERE, nothing bound); a
      positive id adds the equality predicate and binds exactly that id. */
  lemma StatementShapes(categoryId: int)
    ensures categoryId <= 0 ==> SqlText(false) == SelectPosts + NewestFirst && BoundParams(categoryId) == map[]
    ensures categoryId > 0 ==> SqlText(true) == SelectPosts + CategoryEquals + NewestFirst
    ensures categoryId > 0 ==> BoundParams(categoryId).Keys == {":category_id"}
                               && BoundParams(categoryId)[":category_id"] == Int(categoryId)
  {
  }

  /** The order is always newest first. */
  lemma AlwaysNewestFirst(hasCategory: bool)
    ensures var sql := SqlText(hasCategory);
            |NewestFirst| <= |sql| && sql[|sql| - |NewestFirst|..] == NewestFirst
  {
    var sql := SqlText(hasCategory);
    var head := SelectPosts + (if hasCategory then CategoryEquals else "");
    assert sql == head + NewestFirst;
  }

  /** A category id without any digit (`?category_id=abc`) casts to 0 and
      so shows every post, as does a missing one. */
  lemma NonNumericShowsAll(query: map<string, string>)
    requires "category_id" in query ==> forall i :: 0 <= i < |query["category_id"]| ==> !IsDigit(query["category_id"][i])
    ensures CategoryFilter(query) == 0
    ensures BoundParams(CategoryFilter(query)) == map[]
  {
    if "category_id" in query {
      IntCastNonNumeric(query["category_id"]);
    }
  }

  /** The link of a category (`?category_id=<id>`) filters on exactly that
      id. */
  lemma CategoryLinkFilters(query: map<string, string>, id: nat)
    requires 0 < id <= IntMax
    requires "category_id" in query && query["category_id"] == DecimalString(id)
    ensures CategoryFilter(query) == id
    ensures BoundParams(CategoryFilter(query)) == map[":category_id" := Int(id)]
  {
    IntCastOfDecimal(id);
  }
}

/** The search page (project/posts/search.php): an optional title search,
    newest first. */
module Search {
  import opened Php
  import opened PostQuery

  const TitleLike: string := " WHERE p.title LIKE :search "
  const NewestFirst: string := " ORDER BY p.created_at DESC "

  /** The statement text: decided by whether there is a term, never by the
      term itself. */
  function SqlText(hasSearch: bool): string
  {
    SelectPosts + (if hasSearch then TitleLike else "") + NewestFirst
  }

  /** The values bound to the placeholders of `SqlText`. */
  function BoundParams(search: string): map<string, Param>
  {
    if search != "" then map[":search" := SearchParam(search)] else map[]
  }

  /** The page's query construction: read and trim the term, extend the
      statement with the LIKE predicate and bind the wildcard-wrapped term
      when there is one, then order newest first. */
  method Build(query: map<string, string>) returns (search: string, sql: string, params: map<string, Param>)
    ensures search == SearchTerm(query)
    ensures sql == SqlText(search != "")
    ensures params == BoundParams(search)
  {
    search := Trim(StringParam(query, "q", ""));
    sql := SelectPosts;
    params := map[];
    if search != "" {
      sql := sql + TitleLike;
      params := params[":search" := Text("%" + search + "%")];
    }
    assert params == BoundParams(search);
    sql := sql + NewestFirst;
  }

  /** An empty term gives the bare SELECT, newest first, with nothing bound;
      a term gives the LIKE predicate and exactly one bound value, the term
      between two wildcards (a `%` or `_` in the term is not escaped). */
  lemma StatementShapes(search: string)
    ensures search == "" ==> SqlText(false) == SelectPosts + NewestFirst && BoundParams(search) == map[]
    ensures search != "" ==> SqlText(true) == SelectPosts + TitleLike + NewestFirst
    ensures search != "" ==> BoundParams(search).Keys == {":search"}
                             && BoundParams(search)[":search"] == Text("%" + search + "%")
  {
  }

  /** The order is always newest first: every statement ends with the
      descending ORDER BY clause. */
  lemma AlwaysNewestFirst(hasSearch: bool)
    ensures var sql := SqlText(hasSearch);
            |NewestFirst| <= |sql| && sql[|sql| - |NewestFirst|..] == NewestFirst
  {
    var sql := SqlText(hasSearch);
    var head := SelectPosts + (if hasSearch then TitleLike else "");
    assert sql == head + NewestFirst;
  }

  /** Two requests whose terms are both empty or both non-empty produce the
      same statement text, whatever the terms are: the term reaches only the
      bound values. */
  lemma SqlIgnoresTerm(q1: map<string, string>, q2: map<string, string>)
    requires (SearchTerm(q1) == "") == (SearchTerm(q2) == "")
    ensures SqlText(SearchTerm(q1) != "") == SqlText(SearchTerm(q2) != "")
    ensures BoundParams(SearchTerm(q1)).Keys == BoundParams(SearchTerm(q2)).Keys
  {
  }

  /** A term of spaces only (`?q=%20%20`) counts as no term at all. */
  lemma BlankTermSearchesNothing(query: map<string, string>)
    requires "q" in query && AllTrimChars(query["q"])
    ensures SearchTerm(query) == "" && BoundParams(SearchTerm(query)) == map[]
  {
    TrimEmptyIff(query["q"]);
  }
}

/** What the read pages (search, filter, sort and the combined page) share:
    the bound-parameter values, the SELECT text that joins posts to their
    category, the two ORDER BY directions and the two-entry sort allow-list. */
module PostQuery {
  import opened Php

  /** A value bound to a placeholder of a prepared statement. */
  datatype Param = Text(text: string) | Int(number: int)

  /** The SELECT text of the search, filter and combined pages:
      posts joined (inner join) to the name of their category. */
  const SelectPosts: string :=
    "\n    SELECT\n        p.id,\n        p.title,\n        p.content,\n        p.created_at,\n        c.name AS category_name\n    FROM posts p\n    INNER JOIN categories c ON p.category_id = c.id\n"

  const SearchPredicate: string := "p.title LIKE :search"
  const CategoryPredicate: string := "p.category_id = :category_id"

  /** The only tokens that ever reach the ORDER BY clause. */
  predicate IsDirection(d: string)
  {
    d == "ASC" || d == "DESC"
  }

  /** The sort allow-list of the sort and combined pages: exactly "oldest"
      selects ascending order and is kept; every other key is replaced by
      "newest" and selects descending order. */
  predicate SortAllowList(requested: string, key: string, direction: string, sortLabel: string)
  {
    if requested == "oldest" then
      key == "oldest" && direction == "ASC" && sortLabel == "Oudste eerst"
    else
      key == "newest" && direction == "DESC" && sortLabel == "Nieuwste eerst"
  }

  /** `trim((string)($_GET['q'] ?? ''))`. */
  function SearchTerm(query: map<string, string>): string
  {
    Trim(StringParam(query, "q", ""))
  }

  /** `(int)($_GET['category_id'] ?? 0)`. */
  function CategoryFilter(query: map<string, string>): int
  {
    IntParam(query, "category_id")
  }

  /** `(string)($_GET['sort'] ?? 'newest')`. */
  function SortKey(query: map<string, string>): string
  {
    StringParam(query, "sort", "newest")
  }

  /** The search parameter: the term between two `%` wildcards, with no
      escaping of `%` or `_` inside the term. */
  function SearchParam(term: string): Param
  {
    Text("%" + term + "%")
  }

  /** A search is active iff `q` holds a character other than the ones trim
      strips; an absent `q` gives no search. */
  lemma SearchActiveIff(query: map<string, string>)
    ensures SearchTerm(query) != "" <==> "q" in query && !AllTrimChars(query["q"])
  {
    TrimEmptyIff(StringParam(query, "q", ""));
  }

  /** With no query parameters at all: no search, no category, sort "newest". */
  lemma EmptyQueryDefaults()
    ensures SearchTerm(map[]) == "" && CategoryFilter(map[]) == 0 && SortKey(map[]) == "newest"
  {
  }
}

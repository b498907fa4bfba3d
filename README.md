# Blog CRUD pages — a verified model

A teaching blog application written in procedural PHP: posts that belong to
categories, listed, searched, filtered and sorted, with create, edit and
delete pages for both. This project models the parts of it that decide
something:

- the read-query builders of the post pages (`posts/search_filter_sort.php`,
  `posts/search.php`, `posts/filter.php`, `posts/sort.php`). These turn the
  GET parameters `q`, `category_id` and `sort` into a SQL text plus a map of
  bound values. The central property is that no text a caller sends reaches
  the SQL text: the statement depends only on which filters apply and on the
  allow-listed direction `ASC` or `DESC`.
- the configuration part of `includes/db.php`. Each database setting falls
  back to its default when the environment value is falsy. The base path
  used in links and redirects is derived from the script name: the first
  known subdirectory in list order decides, otherwise `dirname`, then
  trailing slashes are stripped.
- the create, edit and delete pages of posts and of categories. They cover
  trimming and casting the form fields, collecting the error messages in
  order, refusing non-positive and unknown ids, writing only when no rule
  fails, mapping a refused write to a message, and refusing to delete a
  category that still has posts.

Modules:

- `Php` holds the PHP built-ins the pages use, as specified functions:
  `trim`, `rtrim`, `str_replace('\\', '/', …)`, `strpos`, `dirname`,
  `implode`, and the `(int)` cast.
- `Http` holds the request and the page outcomes.
- `Store` holds the database as a class with a `categories` table, a `posts`
  table and their auto-increment counters, which the pages change in place.
- `PostQuery` holds what the four listing pages share.
- `PostPages` and `CategoryPages` hold what the create, edit and delete pages
  of posts, and of categories, share: reading and validating the form, and
  the messages.
- Every other module models one PHP file.

A page is a method `Handle(db, req, baseUrl, raises)`. It returns one of:

- `InvalidId`
- `NotFound`
- `Render(errors, view)`: the page is shown with its form or confirmation.
- `Redirect(location, message)`: `header('Location: …?success=…')` followed
  by `exit`.
- `Aborted`: an uncaught database exception ended the request.

The database's own refusals depend on the schema and not on the PHP. These
are the UNIQUE category name, the foreign key from posts to categories and a
post insert with a category id that does not exist. They appear as the
parameter `raises`: when it holds, the write fails and leaves the tables
unchanged.

## Model

| member | source | states |
|---|---|---|
| Php.Trim | project/posts/search_filter_sort.php:36 | `trim` never lengthens its input, and neither end of a non-empty result is one of the six trim characters |
| Php.TrimLeftShape | project/posts/search_filter_sort.php:36 | the left half of `trim` keeps a suffix, drops only trim characters, and stops at the first other character |
| Php.TrimRightShape | project/posts/search_filter_sort.php:36 | the right half of `trim` keeps a prefix, drops only trim characters, and stops at the last other character |
| Php.TrimStripsOnlyTrimChars | project/posts/search.php:25 | the trimmed term is an infix of the input between a prefix and a suffix made of trim characters only |
| Php.TrimEmptyIff | project/posts/search.php:25 | `trim` gives '' exactly when the input consists of trim characters only |
| Php.TrimIdempotent | project/posts/create.php:29-30 | trimming a trimmed value changes nothing |
| Php.RTrimChar | project/includes/db.php:118 | `rtrim($b, '/')` keeps a prefix, drops only slashes, and leaves no trailing slash |
| Php.ReplaceBackslashes | project/includes/db.php:88 | the length is kept, every backslash becomes '/', and every other character is unchanged |
| Php.Implode | project/posts/search_filter_sort.php:131 | no parts give ''; one part gives that part; otherwise the result starts with the first part |
| Php.ImplodeAppend | project/posts/search_filter_sort.php:131 | appending a part to a non-empty list appends the separator and that part, so parts are joined in list order with one separator between neighbours |
| Php.StrPos | project/includes/db.php:101 | `strpos` returns the first position where the needle occurs, and false when it occurs nowhere |
| Php.DirName | project/includes/db.php:114 | `dirname` is empty only for the empty path; a result other than "/" and "." is a proper prefix of the path with no trailing slash |
| Php.DirNameOfFile | project/includes/db.php:109-115 | the dirname of a directory followed by a file name is that directory without trailing slashes: "." when there is none, "/" at the root |
| Php.IntCast | project/posts/search_filter_sort.php:37 | the `(int)` cast always lies within the 64-bit range |
| Php.IntCastOfDecimal | project/posts/filter.php:31 | the cast reads back any decimal number in range exactly, as in an id sent by a category link |
| Php.IntCastNonNumeric | project/posts/delete.php:18-21 | text without any digit casts to 0 |
| PostQuery.SearchActiveIff | project/posts/search_filter_sort.php:36 | the search term is non-empty exactly when `q` is present and is not whitespace only |
| PostQuery.EmptyQueryDefaults | project/posts/search_filter_sort.php:36-38 | without GET parameters the term is '', the category 0 and the sort key "newest" |
| SearchFilterSort.ResolveSort | project/posts/search_filter_sort.php:69-78 | exactly "oldest" gives ASC and "Oudste eerst"; any other key is reset to "newest" with DESC and "Nieuwste eerst" |
| SearchFilterSort.Build | project/posts/search_filter_sort.php:36-135 | the statement is the one chosen by whether the term is non-empty, whether the id is positive and the allow-listed direction; the bound values are those of the term and the id |
| SearchFilterSort.BoundParamsShape | project/posts/search_filter_sort.php:118-127 | `:search` is bound iff the term is non-empty and then holds `%term%` unescaped; `:category_id` is bound iff the id is positive and then holds the id; nothing else is bound |
| SearchFilterSort.PartsMatchParams | project/posts/search_filter_sort.php:110-127 | there are as many predicates as bound values, and each predicate goes with its own value |
| SearchFilterSort.SqlTextShapes | project/posts/search_filter_sort.php:89-135 | the four statements: WHERE only when a predicate applies, predicates joined by AND in the order search then category, always ending in the ORDER BY clause of the direction |
| SearchFilterSort.SqlIgnoresCallerText | project/posts/search_filter_sort.php:89-135 | two requests that agree on which filters apply and on "oldest" give the same statement text, whatever their search text or id digits |
| SearchFilterSort.NoQueryParameters | project/posts/search_filter_sort.php:36-135 | without GET parameters: no WHERE, no bound value, newest first |
| SearchFilterSort.PdoOldestInputs | project/posts/search_filter_sort.php:32-38 | `q=PDO&category_id=0&sort=oldest` reads as term "PDO", no category and key "oldest" |
| SearchFilterSort.PdoOldestStatement | project/posts/search_filter_sort.php:118-135 | for those inputs the statement has the title predicate only and ascending order, and binds `%PDO%` |
| Search.Build | project/posts/search.php:25-58 | the term is the trimmed `q`; the statement depends only on whether the term is empty; the term is bound, wrapped in wildcards, when it is not |
| Search.StatementShapes | project/posts/search.php:48-58 | an empty term gives no WHERE and no bound value; a non-empty term adds the LIKE predicate and binds exactly `:search` |
| Search.AlwaysNewestFirst | project/posts/search.php:58 | every statement ends with ORDER BY created_at DESC |
| Search.SqlIgnoresTerm | project/posts/search.php:36-58 | two requests whose terms are both empty, or both non-empty, give the same statement and bind the same names, whatever the terms say |
| Search.BlankTermSearchesNothing | project/posts/search.php:25-55 | a whitespace-only `q` counts as no search |
| Filter.Build | project/posts/filter.php:31-60 | the id is the cast `category_id`; the statement depends only on whether the id is positive; the id is bound when it is |
| Filter.StatementShapes | project/posts/filter.php:51-60 | an id ≤ 0 gives no WHERE and no bound value; a positive id adds the equality predicate and binds exactly `:category_id` |
| Filter.AlwaysNewestFirst | project/posts/filter.php:60 | every statement ends with ORDER BY created_at DESC |
| Filter.NonNumericShowsAll | project/posts/filter.php:31-39 | a `category_id` without digits, or none, shows every post |
| Filter.CategoryLinkFilters | project/posts/filter.php:31-57 | a link carrying a positive id filters on exactly that id |
| Sort.ResolveSort | project/posts/sort.php:34-42 | exactly "oldest" gives ASC and "Oudste eerst"; anything else is reset to "newest" with DESC and "Nieuwste eerst"; the label is set on both paths |
| Sort.Build | project/posts/sort.php:24-55 | the key defaults to "newest"; the statement is the join with the ORDER BY of the allow-listed direction, and it has no WHERE and no bound value |
| Sort.TwoStatements | project/posts/sort.php:34-55 | only two statements are possible, and the ascending one is chosen exactly for "oldest" |
| Sort.DefaultIsNewest | project/posts/sort.php:24-42 | without `sort` the page sorts newest first |
| Config.EnvFallback | project/includes/db.php:34-37 | a setting takes the environment value unless it is absent, '' or "0" (`?:`), in which case it takes the default |
| Config.DefaultSettings | project/includes/db.php:18-37 | with an empty environment the settings are 127.0.0.1, blogproject, root and the empty password |
| Config.FirstKnownFrom | project/includes/db.php:98-107 | the search returns the first subdirectory in list order that occurs, and none occurs before it |
| Config.Tidy | project/includes/db.php:117-121 | the cleaned base is the input with its trailing slashes removed, so it has no trailing slash and is never "/" (the `=== '/'` test cannot hold) |
| Config.BaseUrl | project/includes/db.php:85-122 | a truthy `BASE_URL` is used verbatim; otherwise the base is the one detected from the slash-normalised script name |
| Config.ListOrderDecides | project/includes/db.php:98-107 | the winning subdirectory is the first in list order, not the leftmost in the path; the base is the text before its first occurrence |
| Config.SubdirAtRootGivesEmpty | project/includes/db.php:96-121 | when the winning entry (the first in list order that occurs) is found at position 0, the base is '' |
| Config.NoSubdirUsesDirname | project/includes/db.php:109-121 | when no subdirectory matches, the base is the cleaned, slash-normalised dirname |
| Config.KnownSubdirsAreTokens | project/includes/db.php:98 | each entry of the list is a single directory name between two slashes |
| Config.OccurrenceInFirstSegment | project/includes/db.php:101 | an entry found within the first directory of a path is found at position 0, and that directory is the entry's name |
| Config.NoKnownSubdirIn | project/includes/db.php:98-107 | a script one directory deep, in a directory that is not a known one, matches no entry |
| Config.WebRootScript | project/includes/db.php:109-121 | a script in the web root, such as /index.php, gives '' |
| Config.SubfolderScript | project/includes/db.php:109-121 | a script in another folder, such as /project/index.php, gives /project |
| Config.SubfolderPostsPage | project/includes/db.php:98-121 | a post page under a project folder, such as /project/posts/create.php, gives /project |
| Config.WebRootPostsPage | project/includes/db.php:96-121 | a post page in the web root, such as /posts/create.php, gives '' |
| Store.Db.FindPost | project/posts/edit.php:32-38 | the lookup finds a post exactly when the id is in the table, and then returns that row |
| Store.Db.FindCategory | project/categories/edit.php:25-27 | the lookup finds a category exactly when the id is in the table, and then returns that row |
| Store.Db.PostCount | project/categories/delete.php:34-51 | the LEFT JOIN count is the number of posts referencing the category, and 0 exactly when none does |
| Store.Db.FindCategoryWithCount | project/categories/delete.php:34-49 | the row is found exactly when the category exists, and then carries its posts' count |
| Store.Db.InsertPost | project/posts/create.php:50-56 | unless refused, one post is added under the next id, which was free; otherwise nothing changes; categories are untouched |
| Store.Db.UpdatePost | project/posts/edit.php:70-83 | unless refused, only the row with that id is replaced; otherwise nothing changes |
| Store.Db.DeletePost | project/posts/delete.php:46-47 | unless refused, only the row with that id is removed; otherwise nothing changes |
| Store.Db.InsertCategory | project/categories/create.php:24-27 | unless refused, one category is added under the next id, which was free; posts are untouched |
| Store.Db.UpdateCategory | project/categories/edit.php:48-54 | unless refused, only the row with that id is renamed; posts are untouched |
| Store.Db.DeleteCategory | project/categories/delete.php:61-64 | unless refused, only the row with that id is removed; posts are untouched |
| PostPages.Validate | project/posts/create.php:29-42 | the fields are the trimmed title and content and the cast category id; the errors are the failed rules in order |
| PostPages.ErrorsMeaning | project/posts/create.php:34-42 | at most three errors, each present exactly when its own rule fails, in the order title, content, category; none exactly when all fields are valid |
| PostPages.BlankFieldsMissing | project/posts/create.php:29-39 | a missing or whitespace-only title or content counts as missing |
| PostCreate.Handle | project/posts/create.php:27-64 | a GET writes nothing; a POST inserts exactly the trimmed and cast fields iff no rule fails, then redirects with "Post toegevoegd!" and the id counter moves on by one; a refused insert aborts the request; on every path without a redirect the posts and the counter are unchanged; a category id is only checked for being positive |
| PostEdit.Handle | project/posts/edit.php:17-96 | an id ≤ 0 is refused before any lookup; an unknown id is not found; a GET writes nothing; a POST validated as on create replaces exactly that post's fields iff no rule fails; the form falls back to the stored values |
| PostEdit.GetShowsStored | project/posts/edit.php:94-96 | without posted values the form shows the stored post |
| PostEdit.PostedValuesWin | project/posts/edit.php:94-96 | with all three fields posted, the form shows what was posted, as on the create page |
| PostDelete.Handle | project/posts/delete.php:18-52 | the id guards as on edit; a GET only asks for confirmation; a POST removes exactly that post and redirects with "Post verwijderd!" |
| CategoryPages.ValidateName | project/categories/create.php:16-20 | the name is the trimmed field; the errors are the failed rule |
| CategoryPages.NameErrorsMeaning | project/categories/create.php:16-20 | the only error, "Naam is verplicht.", appears exactly when the name is missing or whitespace only; an accepted name has no surrounding whitespace |
| CategoryCreate.Handle | project/categories/create.php:14-38 | a GET writes nothing; a non-blank name is inserted, the id counter moves on by one, and the page redirects to the category list; a refused insert becomes the single duplicate-name message; on every path without a redirect the categories and the counter are unchanged; posts are untouched |
| CategoryEdit.Handle | project/categories/edit.php:13-65 | the id guards; a GET writes nothing; a non-blank name renames exactly that category; a refused update becomes the duplicate-name message; the form falls back to the stored name |
| CategoryEdit.EditNameChoice | project/categories/edit.php:65 | the form shows the posted name when present, otherwise the stored one |
| CategoryDelete.Handle | project/categories/delete.php:18-73 | the id guards; a GET deletes nothing; a POST for a category with posts gives exactly the two messages and deletes nothing; otherwise only that category is removed and the page redirects; a refused delete gives its message; no post is ever left without its category |

## Left out

- SQL execution, PDO and the connection (`includes/db.php` lines 42-68) are left out. The model stops at the statement text and the bound values. It does not model the rows a statement returns, LIKE matching, or its collation.
- The category dropdowns that every listing and form page fills are left out. They are one fixed query with no input.
- The `debug` flag of `search_filter_sort.php` (line 46) and the debug block it shows are left out. They are presentation.
- HTML output is left out: `htmlspecialchars`, `nl2br`, the markup. `urlencode` is left out too. A redirect is the value `Redirect(location, message)`, with the location up to `?success=` and the message unencoded.
- `getenv`, `$_GET`, `$_POST` and `$_SERVER` are parameters: maps from names to strings. The method is a string compared with "POST". Values that are arrays instead of strings are not modelled.
- `Php.IntCast` reads optional leading whitespace, a sign and decimal digits, and clamps to the 64-bit range. It does not model exponent or fraction forms such as "1e3" or "2.5e1", which PHP reads as numbers before converting them.
- `Php.DirName` treats only '/' as a separator, as on Unix. The backslash forms of Windows are not modelled. `includes/db.php` normalises backslashes before it calls `dirname`.
- `Config.Tidy` keeps the `$baseUrl === '/'` test of `includes/db.php` line 119. After `rtrim($baseUrl, '/')` that test can never hold. The model contains the branch, and `Config.Tidy`'s contract shows that the result equals the `rtrim` result and is never "/".
- Database constraints are the `raises` parameter: the UNIQUE name, the foreign key on delete, and a post whose category does not exist. The model does not decide when the database refuses.
- `PostCreate.Handle` and `PostEdit.Handle` keep every post pointing at an existing category only when the submitted category exists. The page checks only that the id is positive and leaves existence to the foreign key.
- An uncaught database error on the post pages is the outcome `Aborted`. The PHP error page it would show is not modelled.
- Timestamps (`created_at`) and the order of the rows are produced by the database. Only the direction token is modelled.
- The static pages (`index.php`, `categories/index.php`, `posts/index.php`, `posts/categories/index.php`, `includes/header.php`, `includes/footer.php`) are not part of this model.

/** The two tables the pages read and write, as an object whose maps the
    write statements update in place. Ids are handed out by an
    auto-increment counter per table. Whether a write statement raises an
    error (a UNIQUE or foreign-key violation, or any other failure of the
    database) is decided by the database, not by the pages: every write
    takes that outcome as the parameter `raises`, and a write that raises
    changes nothing. */
module Store {
  import opened Php

  datatype Category = Category(name: string)

  datatype Post = Post(title: string, content: string, categoryId: int)

  class Db {
    var categories: map<int, Category>
    var posts: map<int, Post>
    var nextCategoryId: int
    var nextPostId: int

    /** Stored ids are positive and below their table's counter. */
    ghost predicate Valid()
      reads this
    {
      && 0 < nextCategoryId && 0 < nextPostId
      && (forall id :: id in categories ==> 0 < id < nextCategoryId)
      && (forall id :: id in posts ==> 0 < id < nextPostId)
    }

    /** Every post references an existing category (the foreign key). */
    ghost predicate ReferencesIntact()
      reads this
    {
      forall id :: id in posts ==> posts[id].categoryId in categories
    }

    constructor ()
      ensures Valid() && ReferencesIntact()
      ensures categories == map[] && posts == map[]
    {
      categories := map[];
      posts := map[];
      nextCategoryId := 1;
      nextPostId := 1;
    }

    /** `SELECT ... FROM posts WHERE id = :id` followed by `fetch()`. */
    function FindPost(id: int): (r: Option<Post>)
      reads this
      ensures r.Some? <==> id in posts
      ensures r.Some? ==> r.value == posts[id]
    {
      if id in posts then Some(posts[id]) else None
    }

    /** `SELECT id, name FROM categories WHERE id = :id` followed by `fetch()`. */
    function FindCategory(id: int): (r: Option<Category>)
      reads this
      ensures r.Some? <==> id in categories
      ensures r.Some? ==> r.value == categories[id]
    {
      if id in categories then Some(categories[id]) else None
    }

    /** The ids of the posts that reference category `categoryId`. */
    function PostsOf(categoryId: int): set<int>
      reads this
    {
      set id | id in posts && posts[id].categoryId == categoryId
    }

    /** `COUNT(p.id)` over `LEFT JOIN posts p ON p.category_id = c.id` for one
        category: the number of referencing posts, 0 when there are none. */
    function PostCount(categoryId: int): (n: nat)
      reads this
      ensures n == |PostsOf(categoryId)|
      ensures n == 0 <==> forall id :: id in posts ==> posts[id].categoryId != categoryId
    {
      var ps := PostsOf(categoryId);
      if exists id :: id in posts && posts[id].categoryId == categoryId then
        var id :| id in posts && posts[id].categoryId == categoryId;
        assert id in ps;
        |ps|
      else
        assert ps == {};
        0
    }

    /** The grouped `SELECT c.id, c.name, COUNT(p.id) ... WHERE c.id = :id`:
        no row for a missing category, else its name and post count. */
    function FindCategoryWithCount(id: int): (r: Option<(Category, nat)>)
      reads this
      ensures r.Some? <==> id in categories
      ensures r.Some? ==> r.value.0 == categories[id] && r.value.1 == PostCount(id)
    {
      if id in categories then Some((categories[id], PostCount(id))) else None
    }

    /** `INSERT INTO posts (title, content, category_id) VALUES (...)`. */
    method InsertPost(p: Post, raises: bool) returns (ok: bool)
      requires Valid()
      modifies this
      ensures Valid()
      ensures ok == !raises
      ensures ok ==> posts == old(posts)[old(nextPostId) := p] && nextPostId == old(nextPostId) + 1
      ensures ok ==> old(nextPostId) !in old(posts)
      ensures !ok ==> posts == old(posts) && nextPostId == old(nextPostId)
      ensures categories == old(categories) && nextCategoryId == old(nextCategoryId)
    {
      ok := !raises;
      if ok {
        posts := posts[nextPostId := p];
        nextPostId := nextPostId + 1;
      }
    }

    /** `UPDATE posts SET title, content, category_id WHERE id = :id`: only
        that row, and nothing when there is no such row. */
    method UpdatePost(id: int, p: Post, raises: bool) returns (ok: bool)
      requires Valid()
      modifies this
      ensures Valid()
      ensures ok == !raises
      ensures ok ==> posts == if id in old(posts) then old(posts)[id := p] else old(posts)
      ensures !ok ==> posts == old(posts)
      ensures categories == old(categories)
      ensures nextPostId == old(nextPostId) && nextCategoryId == old(nextCategoryId)
    {
      ok := !raises;
      if ok && id in posts {
        posts := posts[id := p];
      }
    }

    /** `DELETE FROM posts WHERE id = :id`. */
    method DeletePost(id: int, raises: bool) returns (ok: bool)
      requires Valid()
      modifies this
      ensures Valid()
      ensures ok == !raises
      ensures ok ==> posts == old(posts) - {id}
      ensures !ok ==> posts == old(posts)
      ensures categories == old(categories)
      ensures nextPostId == old(nextPostId) && nextCategoryId == old(nextCategoryId)
    {
      ok := !raises;
      if ok {
        posts := posts - {id};
      }
    }

    /** `INSERT INTO categories (name) VALUES (:name)`. */
    method InsertCategory(c: Category, raises: bool) returns (ok: bool)
      requires Valid()
      modifies this
      ensures Valid()
      ensures ok == !raises
      ensures ok ==> categories == old(categories)[old(nextCategoryId) := c]
      ensures ok ==> old(nextCategoryId) !in old(categories) && nextCategoryId == old(nextCategoryId) + 1
      ensures !ok ==> categories == old(categories) && nextCategoryId == old(nextCategoryId)
      ensures posts == old(posts) && nextPostId == old(nextPostId)
    {
      ok := !raises;
      if ok {
        categories := categories[nextCategoryId := c];
        nextCategoryId := nextCategoryId + 1;
      }
    }

    /** `UPDATE categories SET name = :name WHERE id = :id`. */
    method UpdateCategory(id: int, c: Category, raises: bool) returns (ok: bool)
      requires Valid()
      modifies this
      ensures Valid()
      ensures ok == !raises
      ensures ok ==> categories == if id in old(categories) then old(categories)[id := c] else old(categories)
      ensures !ok ==> categories == old(categories)
      ensures posts == old(posts)
      ensures nextPostId == old(nextPostId) && nextCategoryId == old(nextCategoryId)
    {
      ok := !raises;
      if ok && id in categories {
        categories := categories[id := c];
      }
    }

    /** `DELETE FROM categories WHERE id = :id`. */
    method DeleteCategory(id: int, raises: bool) returns (ok: bool)
      requires Valid()
      modifies this
      ensures Valid()
      ensures ok == !raises
      ensures ok ==> categories == old(categories) - {id}
      ensures !ok ==> categories == old(categories)
      ensures posts == old(posts)
      ensures nextPostId == old(nextPostId) && nextCategoryId == old(nextCategoryId)
    {
      ok := !raises;
      if ok {
        categories := categories - {id};
      }
    }
  }
}

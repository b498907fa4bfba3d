/** The edit page of posts (project/posts/edit.php). */
module PostEdit {
  import opened Php
  import opened Http
  import opened Store
  import opened PostPages

  const Updated: string := "Post bijgewerkt!"

  /** The form values: each posted value when it is present, untrimmed,
      otherwise the stored one. */
  function EditView(form: map<string, string>, stored: Post): View
  {
    PostForm(StringParam(form, "title", stored.title),
             StringParam(form, "content", stored.content),
             if "category_id" in form then IntCast(form["category_id"]) else stored.categoryId)
  }

  /** The id comes from the query string: a non-positive id is refused
      before any lookup, an unknown id is reported as not found. For an
      existing post a GET shows it; a POST is validated like on the create
      page and, only when no rule fails, replaces exactly the title, content
      and category of that one post. */
  method Handle(db: Db, req: Request, baseUrl: string, raises: bool) returns (resp: Response)
    requires db.Valid()
    modifies db
    ensures db.Valid()
    ensures db.categories == old(db.categories)
    ensures db.nextPostId == old(db.nextPostId) && db.nextCategoryId == old(db.nextCategoryId)
    ensures var postId := IntParam(req.query, "id");
            postId <= 0 ==> resp == InvalidId(InvalidPostId) && db.posts == old(db.posts)
    ensures var postId := IntParam(req.query, "id");
            postId > 0 && postId !in old(db.posts) ==> resp == NotFound(PostNotFound) && db.posts == old(db.posts)
    ensures var postId := IntParam(req.query, "id");
            postId > 0 && postId in old(db.posts) ==>
              var view := EditView(req.form, old(db.posts)[postId]);
              var fields := Read(req.form);
              var errors := Errors(fields);
              if !req.IsPost() then
                resp == Render([], view) && db.posts == old(db.posts)
              else if errors != [] then
                resp == Render(errors, view) && db.posts == old(db.posts)
              else if raises then
                resp == Aborted && db.posts == old(db.posts)
              else
                && resp == Redirect(baseUrl + "/index.php", Updated)
                && db.posts == old(db.posts)[postId := Post(fields.title, fields.content, fields.categoryId)]
    ensures old(db.ReferencesIntact()) && Read(req.form).categoryId in old(db.categories) ==> db.ReferencesIntact()
  {
    var postId := IntParam(req.query, "id");
    if postId <= 0 {
      return InvalidId(InvalidPostId);
    }
    var post := db.FindPost(postId);
    if post.None? {
      return NotFound(PostNotFound);
    }

    var errors: seq<string> := [];
    if req.IsPost() {
      var fields;
      fields, errors := Validate(req.form);
      if |errors| == 0 {
        var ok := db.UpdatePost(postId, Post(fields.title, fields.content, fields.categoryId), raises);
        if !ok {
          return Aborted;
        }
        return Redirect(baseUrl + "/index.php", Updated);
      }
    }
    resp := Render(errors, EditView(req.form, post.value));
  }

  /** Without posted values the form shows the stored post. */
  lemma GetShowsStored(stored: Post)
    ensures EditView(map[], stored) == PostForm(stored.title, stored.content, stored.categoryId)
  {
  }

  /** After a failed submission of all three fields the form shows what was
      posted, exactly as the create page would. */
  lemma PostedValuesWin(form: map<string, string>, stored: Post)
    requires "title" in form && "content" in form && "category_id" in form
    ensures EditView(form, stored) == PostedView(form)
  {
  }
}

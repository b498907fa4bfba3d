/** The create page of posts (project/posts/create.php). */
module PostCreate {
  import opened Php
  import opened Http
  import opened Store
  import opened PostPages

  const Added: string := "Post toegevoegd!"

  /** A GET shows the empty form; a POST is validated and, only when no
      rule fails, inserted with the trimmed and cast values and answered
      with a redirect to the post list. The store may refuse the insert (a
      category id that does not exist); the page does not catch that. */
  method Handle(db: Db, req: Request, baseUrl: string, raises: bool) returns (resp: Response)
    requires db.Valid()
    modifies db
    ensures db.Valid()
    ensures db.categories == old(db.categories) && db.nextCategoryId == old(db.nextCategoryId)
    ensures !req.IsPost() ==> resp == Render([], PostedView(req.form)) && db.posts == old(db.posts)
    ensures req.IsPost() ==>
              var fields := Read(req.form);
              var errors := Errors(fields);
              if errors != [] then
                resp == Render(errors, PostedView(req.form)) && db.posts == old(db.posts)
              else if raises then
                resp == Aborted && db.posts == old(db.posts)
              else
                && resp == Redirect(baseUrl + "/index.php", Added)
                && old(db.nextPostId) !in old(db.posts)
                && db.posts == old(db.posts)[old(db.nextPostId) := Post(fields.title, fields.content, fields.categoryId)]
    ensures resp.Redirect? ==> db.nextPostId == old(db.nextPostId) + 1
    ensures !resp.Redirect? ==> db.posts == old(db.posts) && db.nextPostId == old(db.nextPostId)
    ensures old(db.ReferencesIntact()) && Read(req.form).categoryId in old(db.categories) ==> db.ReferencesIntact()
  {
    var errors: seq<string> := [];
    if req.IsPost() {
      var fields;
      fields, errors := Validate(req.form);
      if |errors| == 0 {
        var ok := db.InsertPost(Post(fields.title, fields.content, fields.categoryId), raises);
        if !ok {
          return Aborted;
        }
        return Redirect(baseUrl + "/index.php", Added);
      }
    }
    resp := Render(errors, PostedView(req.form));
  }
}

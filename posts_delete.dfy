/** The delete page of posts (project/posts/delete.php). */
module PostDelete {
  import opened Php
  import opened Http
  import opened Store
  import opened PostPages

  const Deleted: string := "Post verwijderd!"

  /** The id guards of the edit page; then a GET only asks for
      confirmation, and a POST deletes that one post, with no check of
      anything that might depend on it. */
  method Handle(db: Db, req: Request, baseUrl: string, raises: bool) returns (resp: Response)
    requires db.Valid()
    modifies db
    ensures db.Valid()
    ensures db.categories == old(db.categories)
    ensures db.nextPostId == old(db.nextPostId) && db.nextCategoryId == old(db.nextCategoryId)
    ensures var postId := IntParam(req.query, "id");
            postId <= 0 ==> resp == InvalidId(InvalidPostId) && db.posts == old(db.posts)
    ensures var postId := IntParam(req.query, "id");
            postId > 0 && postId !in old(db.posts) ==> resp == NotFound(PostNotFound) && db.posts == old(db.posts)
    ensures var postId := IntParam(req.query, "id");
            postId > 0 && postId in old(db.posts) ==>
              if !req.IsPost() then
                resp == Render([], PostConfirm(old(db.posts)[postId].title)) && db.posts == old(db.posts)
              else if raises then
                resp == Aborted && db.posts == old(db.posts)
              else
                resp == Redirect(baseUrl + "/index.php", Deleted) && db.posts == old(db.posts) - {postId}
    ensures old(db.ReferencesIntact()) ==> db.ReferencesIntact()
  {
    var postId := IntParam(req.query, "id");
    if postId <= 0 {
      return InvalidId(InvalidPostId);
    }
    var post := db.FindPost(postId);
    if post.None? {
      return NotFound(PostNotFound);
    }

    if req.IsPost() {
      var ok := db.DeletePost(postId, raises);
      if !ok {
        return Aborted;
      }
      return Redirect(baseUrl + "/index.php", Deleted);
    }
    resp := Render([], PostConfirm(post.value.title));
  }
}

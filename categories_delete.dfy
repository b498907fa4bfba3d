/** The delete page of categories (project/categories/delete.php). */
module CategoryDelete {
  import opened Php
  import opened Http
  import opened Store
  import opened CategoryPages

  const HasPosts: string := "Je kunt deze categorie niet verwijderen omdat er nog posts aan gekoppeld zijn."
  const ChangePostsFirst: string := "Pas eerst de posts aan (kies een andere categorie) en probeer daarna opnieuw."
  const DeleteFailed: string := "Verwijderen is mislukt. Waarschijnlijk zijn er nog posts gekoppeld aan deze categorie."
  const Deleted: string := "Categorie verwijderd!"

  /** The id guards; then the category is read together with the number of
      posts that reference it. A GET asks for confirmation; a POST refuses,
      with two messages, while any post references the category, and only
      otherwise deletes it. A refused delete is caught and shown. Posts are
      never touched, so no post is ever left without its category. */
  method Handle(db: Db, req: Request, baseUrl: string, raises: bool) returns (resp: Response)
    requires db.Valid()
    modifies db
    ensures db.Valid()
    ensures db.posts == old(db.posts)
    ensures db.nextPostId == old(db.nextPostId) && db.nextCategoryId == old(db.nextCategoryId)
    ensures var categoryId := IntParam(req.query, "id");
            categoryId <= 0 ==> resp == InvalidId(InvalidCategoryId) && db.categories == old(db.categories)
    ensures var categoryId := IntParam(req.query, "id");
            categoryId > 0 && categoryId !in old(db.categories) ==>
              resp == NotFound(CategoryNotFound) && db.categories == old(db.categories)
    ensures var categoryId := IntParam(req.query, "id");
            categoryId > 0 && categoryId in old(db.categories) ==>
              var postCount := old(db.PostCount(categoryId));
              var view := CategoryConfirm(old(db.categories)[categoryId].name, postCount);
              if !req.IsPost() then
                resp == Render([], view) && db.categories == old(db.categories)
              else if postCount > 0 then
                resp == Render([HasPosts, ChangePostsFirst], view) && db.categories == old(db.categories)
              else if raises then
                resp == Render([DeleteFailed], view) && db.categories == old(db.categories)
              else
                resp == Redirect(baseUrl + "/categories/index.php", Deleted)
                && db.categories == old(db.categories) - {categoryId}
    ensures old(db.ReferencesIntact()) ==> db.ReferencesIntact()
  {
    var categoryId := IntParam(req.query, "id");
    if categoryId <= 0 {
      return InvalidId(InvalidCategoryId);
    }
    var found := db.FindCategoryWithCount(categoryId);
    if found.None? {
      return NotFound(CategoryNotFound);
    }
    var (category, postCount) := found.value;

    var errors: seq<string> := [];
    if req.IsPost() {
      if postCount > 0 {
        errors := [HasPosts, ChangePostsFirst];
      } else {
        var ok := db.DeleteCategory(categoryId, raises);
        if ok {
          return Redirect(baseUrl + "/categories/index.php", Deleted);
        }
        errors := [DeleteFailed];
      }
    }
    resp := Render(errors, CategoryConfirm(category.name, postCount));
  }
}

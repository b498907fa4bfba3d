/** The create page of categories (project/categories/create.php). */
module CategoryCreate {
  import opened Php
  import opened Http
  import opened Store
  import opened CategoryPages

  const Added: string := "Categorie toegevoegd!"

  /** A GET shows the empty form; a POST with a non-blank name inserts one
      category under a fresh id and redirects to the category list. A
      refused insert (the name is already taken) is caught and shown as a
      form error, with nothing written. Posts are never touched. */
  method Handle(db: Db, req: Request, baseUrl: string, raises: bool) returns (resp: Response)
    requires db.Valid()
    modifies db
    ensures db.Valid()
    ensures db.posts == old(db.posts) && db.nextPostId == old(db.nextPostId)
    ensures var view := CategoryForm(StringParam(req.form, "name", ""));
            var name := ReadName(req.form);
            if !req.IsPost() then
              resp == Render([], view) && db.categories == old(db.categories)
            else if name == "" then
              resp == Render([NameRequired], view) && db.categories == old(db.categories)
            else if raises then
              resp == Render([DuplicateName], view) && db.categories == old(db.categories)
            else
              && resp == Redirect(baseUrl + "/categories/index.php", Added)
              && old(db.nextCategoryId) !in old(db.categories)
              && db.categories == old(db.categories)[old(db.nextCategoryId) := Category(name)]
    ensures resp.Redirect? ==> db.nextCategoryId == old(db.nextCategoryId) + 1
    ensures !resp.Redirect? ==> db.categories == old(db.categories) && db.nextCategoryId == old(db.nextCategoryId)
    ensures old(db.ReferencesIntact()) ==> db.ReferencesIntact()
  {
    var errors: seq<string> := [];
    if req.IsPost() {
      var name;
      name, errors := ValidateName(req.form);
      if |errors| == 0 {
        var ok := db.InsertCategory(Category(name), raises);
        if ok {
          return Redirect(baseUrl + "/categories/index.php", Added);
        }
        errors := [DuplicateName];
      }
    }
    resp := Render(errors, CategoryForm(StringParam(req.form, "name", "")));
  }
}

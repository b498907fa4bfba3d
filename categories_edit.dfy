/** The edit page of categories (project/categories/edit.php). */
module CategoryEdit {
  import opened Php
  import opened Http
  import opened Store
  import opened CategoryPages

  const Updated: string := "Categorie bijgewerkt!"

  /** The name the form shows: the posted one, untrimmed, when present,
      otherwise the stored one. */
  function EditName(form: map<string, string>, stored: Category): string
  {
    StringParam(form, "name", stored.name)
  }

  /** The id guards of the post pages, with the category messages; for an
      existing category a GET shows it, and a POST with a non-blank name
      renames exactly that category. A refused update (the name is taken)
      is caught and shown as a form error. Posts are never touched. */
  method Handle(db: Db, req: Request, baseUrl: string, raises: bool) returns (resp: Response)
    requires db.Valid()
    modifies db
    ensures db.Valid()
    ensures db.posts == old(db.posts)
    ensures db.nextPostId == old(db.nextPostId) && db.nextCategoryId == old(db.nextCategoryId)
    ensures var categoryId := IntParam(req.query, "id");
            categoryId <= 0 ==> resp == InvalidId(InvalidCategoryId) && db.categories == old(db.categories)
    ensures var categoryId := IntParam(req.query, "id");
            categoryId > 0 && categoryId !in old(db.categories) ==>
              resp == NotFound(CategoryNotFound) && db.categories == old(db.categories)
    ensures var categoryId := IntParam(req.query, "id");
            categoryId > 0 && categoryId in old(db.categories) ==>
              var view := CategoryForm(EditName(req.form, old(db.categories)[categoryId]));
              var name := ReadName(req.form);
              if !req.IsPost() then
                resp == Render([], view) && db.categories == old(db.categories)
              else if name == "" then
                resp == Render([NameRequired], view) && db.categories == old(db.categories)
              else if raises then
                resp == Render([DuplicateName], view) && db.categories == old(db.categories)
              else
                && resp == Redirect(baseUrl + "/categories/index.php", Updated)
                && db.categories == old(db.categories)[categoryId := Category(name)]
    ensures old(db.ReferencesIntact()) ==> db.ReferencesIntact()
  {
    var categoryId := IntParam(req.query, "id");
    if categoryId <= 0 {
      return InvalidId(InvalidCategoryId);
    }
    var category := db.FindCategory(categoryId);
    if category.None? {
      return NotFound(CategoryNotFound);
    }

    var errors: seq<string> := [];
    if req.IsPost() {
      var name;
      name, errors := ValidateName(req.form);
      if |errors| == 0 {
        var ok := db.UpdateCategory(categoryId, Category(name), raises);
        if ok {
          return Redirect(baseUrl + "/categories/index.php", Updated);
        }
        errors := [DuplicateName];
      }
    }
    resp := Render(errors, CategoryForm(EditName(req.form, category.value)));
  }

  /** Without a posted name the form shows the stored one; with one, the
      posted text as it was sent. */
  lemma EditNameChoice(form: map<string, string>, stored: Category)
    ensures "name" !in form ==> EditName(form, stored) == stored.name
    ensures "name" in form ==> EditName(form, stored) == form["name"]
  {
  }
}

/** What the create, edit and delete pages of posts share: reading and
    validating the post form (the same three rules, in the same order, on
    create and edit), the values a form shows after a failed submission, and
    the messages of the id guards. */
module PostPages {
  import opened Php
  import opened Http

  const TitleRequired: string := "Titel is verplicht."
  const ContentRequired: string := "Content is verplicht."
  const CategoryRequired: string := "Kies een categorie."

  const InvalidPostId: string := "Geen geldige post id."
  const PostNotFound: string := "Post niet gevonden."

  /** The submitted fields after normalisation. */
  datatype Fields = Fields(title: string, content: string, categoryId: int)

  /** `trim` of the title and the content, `(int)` of the category id; a
      missing field reads as '' or 0. */
  function Read(form: map<string, string>): Fields
  {
    Fields(Trim(StringParam(form, "title", "")),
           Trim(StringParam(form, "content", "")),
           IntParam(form, "category_id"))
  }

  /** The messages of the failed rules, in the order title, content,
      category. */
  function Errors(f: Fields): seq<string>
  {
    (if f.title == "" then [TitleRequired] else [])
    + (if f.content == "" then [ContentRequired] else [])
    + (if f.categoryId <= 0 then [CategoryRequired] else [])
  }

  /** The position of a message in the order the rules are checked. */
  function Rank(message: string): nat
  {
    if message == TitleRequired then 0 else if message == ContentRequired then 1 else 2
  }

  /** The validation block of the create and edit pages: read the fields,
      then append one message per failed rule. */
  method Validate(form: map<string, string>) returns (fields: Fields, errors: seq<string>)
    ensures fields == Read(form)
    ensures errors == Errors(fields)
  {
    fields := Read(form);

    errors := [];
    if fields.title == "" {
      errors := errors + [TitleRequired];
    }
    if fields.content == "" {
      errors := errors + [ContentRequired];
    }
    if fields.categoryId <= 0 {
      errors := errors + [CategoryRequired];
    }
  }

  /** Each message appears exactly when its own rule fails, at most once,
      in check order; the list is empty exactly when every field is valid.
      A category counts as chosen as soon as its id is positive: whether
      such a category exists is left to the store. */
  lemma ErrorsMeaning(f: Fields)
    ensures |Errors(f)| <= 3
    ensures Errors(f) == [] <==> f.title != "" && f.content != "" && f.categoryId > 0
    ensures TitleRequired in Errors(f) <==> f.title == ""
    ensures ContentRequired in Errors(f) <==> f.content == ""
    ensures CategoryRequired in Errors(f) <==> f.categoryId <= 0
    ensures forall i, j :: 0 <= i < j < |Errors(f)| ==> Rank(Errors(f)[i]) < Rank(Errors(f)[j])
  {
  }

  /** A title or content of whitespace only counts as missing. */
  lemma BlankFieldsMissing(form: map<string, string>)
    ensures TitleRequired in Errors(Read(form)) <==> "title" !in form || AllTrimChars(form["title"])
    ensures ContentRequired in Errors(Read(form)) <==> "content" !in form || AllTrimChars(form["content"])
  {
    TrimEmptyIff(StringParam(form, "title", ""));
    TrimEmptyIff(StringParam(form, "content", ""));
    ErrorsMeaning(Read(form));
  }

  /** The values the create form shows: what was posted, untrimmed. */
  function PostedView(form: map<string, string>): View
  {
    PostForm(StringParam(form, "title", ""), StringParam(form, "content", ""), IntParam(form, "category_id"))
  }
}

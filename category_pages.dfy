/** What the create, edit and delete pages of categories share: reading and
    validating the name field, and the messages of the id guards and of a
    refused write. */
module CategoryPages {
  import opened Php

  const NameRequired: string := "Naam is verplicht."
  const DuplicateName: string := "Deze categorienaam bestaat al. Kies een andere naam."

  const InvalidCategoryId: string := "Geen geldige categorie id."
  const CategoryNotFound: string := "Categorie niet gevonden."

  /** `trim` of the posted name; a missing field reads as ''. */
  function ReadName(form: map<string, string>): string
  {
    Trim(StringParam(form, "name", ""))
  }

  /** The one rule of the category form. */
  function NameErrors(name: string): seq<string>
  {
    if name == "" then [NameRequired] else []
  }

  /** The validation block of the create and edit pages. */
  method ValidateName(form: map<string, string>) returns (name: string, errors: seq<string>)
    ensures name == ReadName(form)
    ensures errors == NameErrors(name)
  {
    name := ReadName(form);
    errors := [];
    if name == "" {
      errors := errors + [NameRequired];
    }
  }

  /** The name is refused, with exactly one message, when the field is
      missing or holds trim characters only, and accepted otherwise; an
      accepted name has no surrounding whitespace. */
  lemma NameErrorsMeaning(form: map<string, string>)
    ensures NameErrors(ReadName(form)) == [] <==> "name" in form && !AllTrimChars(form["name"])
    ensures NameErrors(ReadName(form)) != [] ==> NameErrors(ReadName(form)) == [NameRequired]
    ensures var name := ReadName(form);
            name != "" ==> !IsTrimChar(name[0]) && !IsTrimChar(name[|name| - 1])
  {
    TrimEmptyIff(StringParam(form, "name", ""));
  }
}

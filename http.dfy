/** The request a page reads and the response it produces. A page either
    renders (a refusal of the id, a not-found message, or its form or
    confirmation with the collected error messages) or, after a successful
    write, redirects (post/redirect/get). */
module Http {

  /** `$_SERVER['REQUEST_METHOD']`, `$_GET` and `$_POST` of one request. */
  datatype Request = Request(verb: string, query: map<string, string>, form: map<string, string>)
  {
    /** `$_SERVER['REQUEST_METHOD'] === 'POST'`. */
    predicate IsPost()
    {
      verb == "POST"
    }
  }

  /** The values a rendered page shows. */
  datatype View =
    | PostForm(title: string, content: string, categoryId: int)
    | CategoryForm(name: string)
    | PostConfirm(title: string)
    | CategoryConfirm(name: string, postCount: nat)

  datatype Response =
    | InvalidId(message: string)
    | NotFound(message: string)
    | Render(errors: seq<string>, view: View)
      /** `header('Location: ' . $location . '?success=' . urlencode($success))`. */
    | Redirect(location: string, success: string)
      /** The store raised an error the page does not catch; the request ends. */
    | Aborted
}

/** What a view answers: a page to render, a redirect, or an error status. */
module Http {
  import opened Wrappers
  import opened UsersModels

  /** The named routes the views redirect to. */
  datatype Route = TestDetail(pk: nat) | UsersMe | Index

  datatype Response =
    | NotFound                     // Http404 from a failed lookup
    | ServerError                  // an exception the view does not catch
    | Redirect(to: Route)
    | FormInvalid                  // the form is rendered again with its errors
    | ShowQuestion(question: nat)  // the next question of the attempt, with the answer form
    | ShowResult(result: real, success: bool, rePassing: bool)
    | ShowMe(offer: Option<Color>) // the personal page with the colour on offer
}

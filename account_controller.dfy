/** AccountController.GetAccountNumbers: the stored token is required, then a GET of the
    account numbers whose reply is passed through. */
module AccountController {
  import opened Wrappers
  import opened Models
  import opened Http

  const AccountNumbersUrl := "https://api.schwabapi.com/trader/v1/accounts/accountNumbers"

  function GetAccountNumbers(token: Call<Option<OAuthToken>>, send: ApiRequest -> Call<HttpReply>): Exchange {
    Forward(token, AccountNumbersUrl, send, "Resource not found", false, "An unexpected error occurred")
  }

  /** Without a token the answer is 401 and nothing is sent; with one, exactly one GET of the
      account numbers goes out with the bearer headers. Success returns the upstream body
      verbatim with 200; any other status is returned as it came, a 503 through the default
      arm; a timeout is 408 and other exceptions are 500. */
  lemma GetAccountNumbersSpec(token: Call<Option<OAuthToken>>, send: ApiRequest -> Call<HttpReply>)
    ensures var x := GetAccountNumbers(token, send);
      && (token == Returned(None) ==> x.sent.None? && x.response.Status() == 401)
      && (token.Returned? && token.value.Some? ==>
            var request := ApiRequest(AccountNumbersUrl,
                                      [("Accept", "application/json"), ("Authorization", "Bearer " + token.value.value.accessToken)]);
            && x.sent == Some(request)
            && match send(request)
               case Threw(e) => x.response.Status() == (if e.kind == TaskCanceled then 408 else 500)
               case Returned(reply) =>
                 && (IsSuccessStatusCode(reply.status) ==> x.response == Content(reply.content) && x.response.Status() == 200)
                 && (!IsSuccessStatusCode(reply.status) ==> x.response.Status() == reply.status && x.response.errors == [reply.content])
                 && (reply.status == 503 ==> x.response.message == "Unexpected error occurred"))
      && (token.Threw? ==> x.sent.None? && x.response.Status() == (if token.ex.kind == TaskCanceled then 408 else 500))
  {
    ForwardSpec(token, AccountNumbersUrl, send, "Resource not found", false, "An unexpected error occurred");
  }
}

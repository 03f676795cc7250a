/** The HTTP vocabulary of the pass-through controllers: upstream GET requests, their
    replies, and the responses the controllers send to their own callers. */
module Http {
  import opened Wrappers
  import opened Models

  /** HttpResponseMessage.IsSuccessStatusCode. */
  predicate IsSuccessStatusCode(status: int) {
    200 <= status <= 299
  }

  /** A GET to the brokerage API: the URL and the headers in the order they are added. */
  datatype ApiRequest = ApiRequest(url: string, headers: seq<(string, string)>)

  /** A reply that arrived: its status code and its body text. An exception in its place is
      the Threw arm of Call<HttpReply>. */
  datatype HttpReply = HttpReply(status: int, content: string)

  /** A controller's response: a raw body with status 200, or a { message, errors } object. */
  datatype Response =
    | Content(text: string)
    | Problem(status: int, message: string, errors: seq<string>)
  {
    function Status(): int {
      match this
      case Content(_) => 200
      case Problem(s, _, _) => s
    }
  }

  /** The request headers Accept: application/json and Authorization: Bearer <token>. */
  function BearerHeaders(accessToken: string): seq<(string, string)> {
    [("Accept", "application/json"), ("Authorization", "Bearer " + accessToken)]
  }

  /** The three catch clauses of a pass-through action. */
  function ExceptionResponse(ex: Exception, unexpected: string): (r: Response)
    ensures r.Status() == (if ex.kind == TaskCanceled then 408 else 500)
    ensures r.Problem? && r.errors == [ex.message]
  {
    match ex.kind
    case HttpRequestError => Problem(500, "Failed to connect to Schwab API", [ex.message])
    case TaskCanceled => Problem(408, "Request to Schwab API timed out", [ex.message])
    case OtherError => Problem(500, unexpected, [ex.message])
  }

  /** A pass-through controller's outcome: the response, whether it asked the token store for
      a token, and the upstream request it sent, if any. */
  datatype Exchange = Exchange(response: Response, fetchedToken: bool, sent: Option<ApiRequest>)
  const NoTokenMessage := "No valid authorization token available"
  const NoTokenDetail := "OAuth flow needs to be completed or restarted"

  /** The status switch after a non-success reply. Each arm keeps the upstream status; the
      pass-through actions differ only in the 404 message and whether 503 has its own arm. */
  function ErrorResponse(status: int, errorContent: string, notFoundMessage: string, unavailableArm: bool): (r: Response)
    ensures r.Problem? && r.status == status && r.errors == [errorContent]
    ensures status == 404 ==> r.message == notFoundMessage
  {
    var message :=
      if status == 400 then "Invalid request parameters"
      else if status == 401 then "Authorization token is invalid or no accessible accounts"
      else if status == 403 then "Forbidden from accessing this service"
      else if status == 404 then notFoundMessage
      else if status == 500 then "Unexpected server error"
      else if status == 503 && unavailableArm then "Server has a temporary problem responding"
      else "Unexpected error occurred";
    Problem(status, message, [errorContent])
  }

  /** The common tail of a pass-through action: fetch a valid token, send the GET with the
      bearer headers, and map the reply or the exception. */
  function Forward(token: Call<Option<OAuthToken>>, url: string, send: ApiRequest -> Call<HttpReply>,
                   notFoundMessage: string, unavailableArm: bool, unexpected: string): Exchange
  {
    match token
    case Threw(e) => Exchange(ExceptionResponse(e, unexpected), true, None)
    case Returned(None) => Exchange(Problem(401, NoTokenMessage, [NoTokenDetail]), true, None)
    case Returned(Some(t)) =>
      var request := ApiRequest(url, BearerHeaders(t.accessToken));
      var response :=
        match send(request)
        case Threw(e) => ExceptionResponse(e, unexpected)
        case Returned(reply) =>
          if IsSuccessStatusCode(reply.status) then Content(reply.content)
          else ErrorResponse(reply.status, reply.content, notFoundMessage, unavailableArm);
      Exchange(response, true, Some(request))
  }

  /** A request goes out exactly when a token was obtained, and carries that token; without
      one the answer is a 401. A successful reply's body is passed on verbatim, any other
      reply keeps its status and its body as the one error, and an exception is a 408 when
      it is a timeout and a 500 otherwise. */
  lemma ForwardSpec(token: Call<Option<OAuthToken>>, url: string, send: ApiRequest -> Call<HttpReply>,
                    notFoundMessage: string, unavailableArm: bool, unexpected: string)
    ensures var x := Forward(token, url, send, notFoundMessage, unavailableArm, unexpected);
      && x.fetchedToken
      && (x.sent.Some? <==> token.Returned? && token.value.Some?)
      && (x.sent.Some? ==> x.sent.value == ApiRequest(url, BearerHeaders(token.value.value.accessToken)))
      && (token == Returned(None) ==> x.response.Status() == 401)
      && (token.Threw? ==> x.response == ExceptionResponse(token.ex, unexpected))
      && (x.sent.Some? ==>
            match send(x.sent.value)
            case Threw(e) => x.response.Status() == (if e.kind == TaskCanceled then 408 else 500)
            case Returned(reply) =>
              && (IsSuccessStatusCode(reply.status) ==> x.response == Content(reply.content))
              && (!IsSuccessStatusCode(reply.status) ==>
                    x.response.Status() == reply.status && x.response.errors == [reply.content]))
  {
  }
}

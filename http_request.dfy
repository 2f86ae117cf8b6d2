/**
 * The older request of crawler/src/requests/http_request.rs. It has no depth, and its
 * `execute` runs the same validation, reply shaping and link fix-up as crawler/src/requests/http.rs.
 */
module HttpLegacy {
  import opened Basics
  import opened Collaborators
  import Http

  type HttpResponse = Http.HttpResponse
  type HttpClient = Http.HttpClient

  datatype HttpRequest = HttpRequest(target: string, client: Option<HttpClient>)

  /** `HttpRequest::new` */
  function New(target: string): (r: HttpRequest)
    ensures r.target == target && r.client.Some?
  {
    HttpRequest(target, Some(Http.DefaultClient))
  }

  /**
   * `execute`: an invalid target is answered with the validator's error before any
   * network access, and every response the older variant gives is the one `http.rs` gives.
   */
  method Execute(req: HttpRequest, w: World) returns (r: Result<HttpResponse, string>)
    requires w.validate(req.target).Success? ==> req.client.Some?
    ensures w.validate(req.target).Failure? ==> r == Failure(w.validate(req.target).error)
    ensures r == Http.Respond(req.target, w)
  {
    r := Http.Fetch(req.target, w);
  }
}

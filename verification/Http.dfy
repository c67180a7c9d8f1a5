/** An HTTP request, as the parser fills it in. */
module Http {
  import opened Endpoints

  datatype HttpRequest = HttpRequest(
    verb: HttpMethod, path: string, queryString: string, version: string,
    headers: map<string, string>, body: string, query: map<string, string>,
    pathParameters: map<string, string>, raw: string, complete: bool, contentLength: int)

  /** A request before anything was parsed into it. */
  const Blank := HttpRequest(Unknown, "", "", "", map[], "", map[], map[], "", false, 0)
}

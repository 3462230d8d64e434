/** Requests and responses as the parser, the middleware and the handlers share them. */
module HttpTypes {
  import opened Wrappers

  datatype SessionContext = SessionContext(
    token: Option<string>, user: Option<string>, data: map<string, string>)

  const NO_SESSION := SessionContext(None, None, map[])

  datatype HttpRequest = HttpRequest(
    verb: string, path: string, headers: map<string, string>, body: string,
    raw: string, clientIp: string, session: SessionContext)

  datatype HttpResponse = HttpResponse(status: int, headers: map<string, string>, body: string)
}

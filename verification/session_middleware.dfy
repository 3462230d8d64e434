/** The session middleware around a wrapped handler. */
module SessionMiddleware {
  import opened Wrappers
  import opened HttpTypes
  import opened SessionCookie
  import opened SessionTable
  import opened SessionStores
  import opened SessionProtocol

  function RequestOf(request: HttpRequest): Request {
    Request(request.path, ExtractSessionToken(request.headers))
  }

  /** get_session may erase the token it finds expired. */
  function AfterLookup(t: Table, now: int, req: Request): Table {
    if req.token.Some? then Apply(t, At(GetSession(req.token.value), now)) else t
  }

  class SessionMiddlewareHandler {
    const next: HttpRequest -> HttpResponse
    const store: SessionStore

    constructor (nextHandler: HttpRequest -> HttpResponse, sessions: SessionStore)
      ensures next == nextHandler && store == sessions
    {
      next, store := nextHandler, sessions;
    }

    /** One request with nothing in between: `now` is when the session is looked up,
        `later` when the wrapped handler has answered, `issue` the token drawn then.
        Only a "/login" answered with 200 makes a session, only "/logout" ends one that
        has not expired, and these two set the cookie. */
    method HandleRequest(request: HttpRequest, now: int, later: int, issue: string) returns (response: HttpResponse)
      requires store.Valid() && now <= later
      modifies store
      ensures store.Valid()
      ensures var token := ExtractSessionToken(request.headers);
              var context :=
                if token.Some? && token.value in old(store.sessions) &&
                   now <= old(store.sessions)[token.value].expiresAt
                then SessionContext(token, Some(old(store.sessions)[token.value].userId),
                                    old(store.sessions[token.value].data))
                else SessionContext(None, None, map[]);
              var answer := next(request.(session := context));
              && response.status == answer.status && response.body == answer.body
              && response.headers ==
                 if request.path == "/login" && answer.status == 200 then
                   answer.headers["Set-Cookie" := "session=" + issue + "; HttpOnly; Path=/;"]
                 else if request.path == "/logout" && token.Some? then
                   answer.headers["Set-Cookie" := "session=; HttpOnly; Path=/; Max-Age=0"]
                 else answer.headers
      ensures forall t :: t in store.sessions ==>
                || (t in old(store.sessions) && store.sessions[t] == old(store.sessions)[t])
                || (request.path == "/login" && response.status == 200 && t == issue && fresh(store.sessions[t]))
      ensures request.path == "/login" && response.status == 200 ==>
                && issue in store.sessions && fresh(store.sessions[issue])
                && store.sessions[issue].userId == response.body && store.sessions[issue].data == map[]
                && store.sessions[issue].expiresAt == later + 24 * 3600 * 1_000_000_000
      ensures forall t :: t in old(store.sessions) && t !in store.sessions ==>
                ExtractSessionToken(request.headers) == Some(t) &&
                (request.path == "/logout" || now > old(store.sessions)[t].expiresAt)
      ensures request.path == "/logout" ==>
                forall t :: ExtractSessionToken(request.headers) == Some(t) ==> t !in store.sessions
      ensures store.View() == RespondMove(AfterLookup(old(store.View()), now, RequestOf(request)), later,
                                          RequestOf(request), response.status, response.body, issue)
    {
      hide ExtractSessionToken;
      var modified := request.(session := NO_SESSION);
      var token := ExtractSessionToken(request.headers);
      if token.Some? {
        var data := store.GetSession(token.value, now);
        if data != null {
          modified := modified.(session := SessionContext(token, Some(data.userId), data.data));
        }
      }
      response := next(modified);
      if request.path == "/login" && response.status == 200 {
        store.CreateSession(response.body, issue, later);
        response := response.(headers := response.headers["Set-Cookie" := "session=" + issue + "; HttpOnly; Path=/;"]);
      } else if request.path == "/logout" && token.Some? {
        store.InvalidateSession(token.value);
        response := response.(headers := response.headers["Set-Cookie" := "session=; HttpOnly; Path=/; Max-Age=0"]);
      }
    }
  }

  /** What get_session erases on the way makes no difference to who is logged in. */
  lemma LookupThenRespond(t: Table, now: int, later: int, req: Request, status: int, body: string, issue: string)
    requires now <= later
    ensures LiveAt(RespondMove(AfterLookup(t, now, req), later, req, status, body, issue), later) ==
            LiveAt(RespondMove(t, later, req, status, body, issue), later)
  {
  }

  /** Logging in, and coming back with the cookie that was set within 24 hours, is
      being known by the name the login answered with; later it is not. */
  method LoginThenVisit(handler: SessionMiddlewareHandler, login: HttpRequest, at: int, answered: int, issue: string,
                        visit: HttpRequest, now: int, later: int, next: string)
    returns (first: HttpResponse, second: HttpResponse)
    requires handler.store.Valid() && at <= answered <= now <= later && issue != [] && IsPair(issue)
    modifies handler.store
    ensures login.path == "/login" && first.status == 200 ==>
              && "Set-Cookie" in first.headers
              && var context := if now <= answered + 24 * 3600 * 1_000_000_000
                                then SessionContext(Some(issue), Some(first.body), map[])
                                else SessionContext(None, None, map[]);
                 var sent := visit.(headers := visit.headers["Cookie" := first.headers["Set-Cookie"]],
                                    session := context);
                 second.status == handler.next(sent).status && second.body == handler.next(sent).body
  {
    hide ExtractSessionToken, IsPair;
    first := handler.HandleRequest(login, at, answered, issue);
    var cookie := if "Set-Cookie" in first.headers then first.headers["Set-Cookie"] else "";
    SetCookieCarriesToken(issue);
    var request := visit.(headers := visit.headers["Cookie" := cookie]);
    CookieComesFirst(request.headers);
    second := handler.HandleRequest(request, now, later, next);
  }

  lemma CookieComesFirst(headers: map<string, string>)
    requires "Cookie" in headers
    ensures FindCookie(headers["Cookie"]).Some? ==> ExtractSessionToken(headers) == FindCookie(headers["Cookie"])
  {
  }

  /** After a logout nobody is known by its token. */
  method LogoutThenVisit(handler: SessionMiddlewareHandler, logout: HttpRequest, at: int, answered: int, issue: string,
                         visit: HttpRequest, now: int, later: int, next: string)
    returns (first: HttpResponse, second: HttpResponse)
    requires handler.store.Valid() && at <= answered <= now <= later
    requires logout.path == "/logout" && ExtractSessionToken(logout.headers).Some?
    requires ExtractSessionToken(visit.headers) == ExtractSessionToken(logout.headers)
    modifies handler.store
    ensures var sent := visit.(session := SessionContext(None, None, map[]));
            second.status == handler.next(sent).status && second.body == handler.next(sent).body
    ensures "Set-Cookie" in first.headers && first.headers["Set-Cookie"] == "session=; HttpOnly; Path=/; Max-Age=0"
  {
    hide ExtractSessionToken;
    first := handler.HandleRequest(logout, at, answered, issue);
    second := handler.HandleRequest(visit, now, later, next);
  }
}

/** Requests through the session middleware, interleaved: each critical section of
    the session store is one step, so get_session is two. */
module SessionProtocol {
  import opened Wrappers
  import opened SessionTable

  /** What the middleware looks at of a request: its path and the token it carries. */
  datatype Request = Request(path: string, token: Option<string>)

  /** How far a request has come. `seen` is the session handed to the wrapped handler. */
  datatype Thread =
    | Arrived(req: Request)
    | Erasing(req: Request)
    | Handling(req: Request, seen: Option<Session>)

  /** What the outside world can tell about sessions. */
  datatype Event = LoggedIn(token: string, user: string, at: int) | LoggedOut(token: string)

  datatype System = System(
    table: Table, now: int, issued: set<string>, threads: map<nat, Thread>, log: seq<Event>)

  const BOOT := System(map[], 0, {}, map[], [])

  datatype Move =
    | Tick(now: int)
    | Arrive(id: nat, req: Request)
    | Read(id: nat)
    | EraseExpired(id: nat)
    | Respond(id: nat, status: int, body: string, issue: string)
    | Cleanup
    | UpdateData(token: string, key: string, value: string)

  predicate IsLogin(req: Request, status: int) {
    req.path == "/login" && status == 200
  }

  /** The shared-lock part of get_session, and what the wrapped handler gets to see. */
  function ReadMove(t: Table, now: int, req: Request): Thread {
    if req.token.Some? && FoundExpired(t, req.token.value, now) then Erasing(req)
    else Handling(req, if req.token.Some? then Lookup(t, req.token.value, now) else None)
  }

  /** What the middleware does to the table once the wrapped handler has answered. */
  function RespondMove(t: Table, now: int, req: Request, status: int, body: string, issue: string): Table {
    if IsLogin(req, status) then Create(t, issue, body, now)
    else if req.path == "/logout" && req.token.Some? then Erase(t, req.token.value)
    else t
  }

  function RespondEvents(now: int, req: Request, status: int, body: string, issue: string): seq<Event> {
    if IsLogin(req, status) then [LoggedIn(issue, body, now)]
    else if req.path == "/logout" && req.token.Some? then [LoggedOut(req.token.value)]
    else []
  }

  /** One step, None when it is not possible. The clock does not go back and a token
      is issued once. */
  function Next(s: System, m: Move): Option<System> {
    match m
    case Tick(now) =>
      if now < s.now then None else Some(s.(now := now))
    case Arrive(id, req) =>
      if id in s.threads then None else Some(s.(threads := s.threads[id := Arrived(req)]))
    case Read(id) =>
      if id !in s.threads || !s.threads[id].Arrived? then None
      else Some(s.(threads := s.threads[id := ReadMove(s.table, s.now, s.threads[id].req)]))
    case EraseExpired(id) =>
      if id !in s.threads || !s.threads[id].Erasing? || s.threads[id].req.token == None then None
      else
        var req := s.threads[id].req;
        Some(s.(table := Erase(s.table, req.token.value), threads := s.threads[id := Handling(req, None)]))
    case Respond(id, status, body, issue) =>
      if id !in s.threads || !s.threads[id].Handling? then None
      else if IsLogin(s.threads[id].req, status) && issue in s.issued then None
      else
        var req := s.threads[id].req;
        Some(s.(table := RespondMove(s.table, s.now, req, status, body, issue),
                issued := s.issued + if IsLogin(req, status) then {issue} else {},
                threads := s.threads - {id},
                log := s.log + RespondEvents(s.now, req, status, body, issue)))
    case Cleanup =>
      Some(s.(table := LiveAt(s.table, s.now)))
    case UpdateData(token, key, value) =>
      Some(s.(table := Update(s.table, token, key, value)))
  }

  function Run(s: System, moves: seq<Move>): Option<System>
    decreases |moves|
  {
    if moves == [] then Some(s)
    else
      var n := |moves| - 1;
      match Run(s, moves[..n])
      case None => None
      case Some(s') => Next(s', moves[n])
  }

  // ----- Who is logged in, told from the log alone -----

  /** The i-th event logged `user` in with `token`, and no logout of it came since. */
  predicate StandsSince(log: seq<Event>, i: nat, token: string) {
    && i < |log| && log[i].LoggedIn? && log[i].token == token
    && forall j :: i < j < |log| ==> log[j] != LoggedOut(token)
  }

  /** Some earlier login gave `user` this token, no logout with it was handled since,
      and the login is at most 24 hours ago. */
  ghost predicate IsLoggedIn(log: seq<Event>, token: string, user: string, now: int) {
    exists i: nat :: StandsSince(log, i, token) && log[i].user == user && now <= log[i].at + LIFETIME
  }

  // ----- Invariants -----

  datatype Login = Login(user: string, at: int)

  /** The login of `token` that stands at the end of the log. */
  function Standing(log: seq<Event>, token: string): Option<Login> {
    if log == [] then None
    else
      var e := log[|log| - 1];
      if e.token != token then Standing(log[..|log| - 1], token)
      else if e.LoggedIn? then Some(Login(e.user, e.at))
      else None
  }

  /** Tokens in use were issued, each by one login. */
  ghost predicate TokensInv(s: System) {
    && s.table.Keys <= s.issued
    && (forall i :: 0 <= i < |s.log| && s.log[i].LoggedIn? ==> s.log[i].token in s.issued)
    && (forall i, j :: 0 <= i < j < |s.log| && s.log[i].LoggedIn? && s.log[j].LoggedIn? ==>
          s.log[i].token != s.log[j].token)
  }

  /** A thread about to erase a token will find it absent or expired. */
  ghost predicate ErasingInv(s: System) {
    forall id :: id in s.threads && s.threads[id].Erasing? ==>
      && s.threads[id].req.token.Some?
      && s.threads[id].req.token.value in s.issued
      && Lookup(s.table, s.threads[id].req.token.value, s.now) == None
  }

  predicate IsSessionOf(session: Session, e: Login) {
    session.user == e.user && session.expires == e.at + LIFETIME
  }

  /** The sessions in the table are standing logins, and every standing login that is
      not too old is in the table. */
  ghost predicate TableInv(s: System) {
    forall k ::
      var e := Standing(s.log, k);
      && (k in s.table ==> e.Some? && IsSessionOf(s.table[k], e.value))
      && (e.Some? && s.now <= e.value.at + LIFETIME ==> k in s.table)
  }

  ghost predicate SystemInv(s: System) {
    TokensInv(s) && ErasingInv(s) && TableInv(s)
  }

  lemma StandingAfter(log: seq<Event>, e: Event, token: string)
    ensures Standing(log + [e], token) ==
            if e.token != token then Standing(log, token) else if e.LoggedIn? then Some(Login(e.user, e.at)) else None
  {
  }

  /** The events of a response, and the table it leaves, agree. */
  lemma RespondKeepsTable(s: System, id: nat, status: int, body: string, issue: string)
    requires SystemInv(s) && Next(s, Respond(id, status, body, issue)).Some?
    ensures TableInv(Next(s, Respond(id, status, body, issue)).value)
  {
    var req := s.threads[id].req;
    var events := RespondEvents(s.now, req, status, body, issue);
    var s' := Next(s, Respond(id, status, body, issue)).value;
    if events == [] {
      assert s.log + events == s.log;
    } else {
      assert events == [events[0]];
      forall k
        ensures var e := Standing(s'.log, k);
                && (k in s'.table ==> e.Some? && IsSessionOf(s'.table[k], e.value))
                && (e.Some? && s'.now <= e.value.at + LIFETIME ==> k in s'.table)
      {
        StandingAfter(s.log, events[0], k);
      }
    }
  }

  lemma RespondKeepsTokens(s: System, id: nat, status: int, body: string, issue: string)
    requires SystemInv(s) && Next(s, Respond(id, status, body, issue)).Some?
    ensures TokensInv(Next(s, Respond(id, status, body, issue)).value)
    ensures ErasingInv(Next(s, Respond(id, status, body, issue)).value)
  {
  }

  lemma NextKeepsInv(s: System, m: Move)
    requires SystemInv(s) && Next(s, m).Some?
    ensures SystemInv(Next(s, m).value)
  {
    match m
    case Respond(id, status, body, issue) =>
      RespondKeepsTable(s, id, status, body, issue);
      RespondKeepsTokens(s, id, status, body, issue);
    case _ =>
  }

  lemma {:induction false} RunKeepsInv(moves: seq<Move>)
    requires Run(BOOT, moves).Some?
    ensures SystemInv(Run(BOOT, moves).value)
    decreases |moves|
  {
    if moves != [] {
      var n := |moves| - 1;
      RunKeepsInv(moves[..n]);
      NextKeepsInv(Run(BOOT, moves[..n]).value, moves[n]);
    }
  }

  // ----- The laws -----

  ghost predicate TokensOnce(log: seq<Event>) {
    forall i, j :: 0 <= i < j < |log| && log[i].LoggedIn? && log[j].LoggedIn? ==> log[i].token != log[j].token
  }

  lemma {:induction false} StandingIffStands(log: seq<Event>, token: string, user: string, at: int)
    requires TokensOnce(log)
    ensures Standing(log, token) == Some(Login(user, at)) <==>
            exists i: nat :: StandsSince(log, i, token) && log[i].user == user && log[i].at == at
    decreases |log|
  {
    if log != [] {
      var n := |log| - 1;
      var init, e := log[..n], log[n];
      StandingIffStands(init, token, user, at);
      if e.token != token {
        StandsInLonger(init, e, token);
        assert init + [e] == log;
      } else if e.LoggedIn? {
        assert StandsSince(log, n, token);
        assert forall i: nat :: StandsSince(log, i, token) ==> i == n;
      } else {
        assert forall i: nat :: !StandsSince(log, i, token);
      }
    }
  }

  lemma StandsInLonger(log: seq<Event>, e: Event, token: string)
    requires e.token != token
    ensures forall i: nat :: StandsSince(log + [e], i, token) <==> StandsSince(log, i, token)
    ensures forall i: nat :: i < |log| ==> (log + [e])[i] == log[i]
  {
    forall i: nat ensures StandsSince(log + [e], i, token) <==> StandsSince(log, i, token) {
      if i < |log| {
        assert forall j :: i < j < |log| ==> (log + [e])[j] == log[j];
      }
    }
  }

  /** In every run, under every interleaving, the wrapped handler of a request sees
      user `u` exactly when the log has a login of `u` with the request's token at most
      24 hours ago that no logout has ended. */
  lemma HandlerSeesLogin(moves: seq<Move>, id: nat, u: string)
    requires Run(BOOT, moves).Some?
    requires var s := Run(BOOT, moves).value; Next(s, Read(id)).Some?
    ensures var s := Run(BOOT, moves).value;
            var req := s.threads[id].req;
            var thread := Next(s, Read(id)).value.threads[id];
            (thread.Handling? && thread.seen.Some? && thread.seen.value.user == u) <==>
            (req.token.Some? && IsLoggedIn(s.log, req.token.value, u, s.now))
  {
    RunKeepsInv(moves);
    var s := Run(BOOT, moves).value;
    var req := s.threads[id].req;
    if req.token.Some? {
      LookupIffLoggedIn(s, req.token.value, u);
    }
  }

  lemma LookupIffLoggedIn(s: System, token: string, u: string)
    requires SystemInv(s)
    ensures (Lookup(s.table, token, s.now).Some? && Lookup(s.table, token, s.now).value.user == u) <==>
            IsLoggedIn(s.log, token, u, s.now)
  {
    assert TokensOnce(s.log);
    assert TableInv(s);
    if token in s.table {
      var login := Standing(s.log, token).value;
      StandingIffStands(s.log, token, login.user, login.at);
    }
    if i: nat :| StandsSince(s.log, i, token) && s.log[i].user == u && s.now <= s.log[i].at + LIFETIME {
      StandingIffStands(s.log, token, u, s.log[i].at);
    }
  }

  // ----- Who is logged in, told from the moves alone -----

  /** The clock before the n-th move. */
  function ClockAt(moves: seq<Move>, n: nat): int
    requires n <= |moves|
  {
    if n == 0 then 0 else match moves[n - 1] case Tick(now) => now case _ => ClockAt(moves, n - 1)
  }

  /** The request that last arrived under this id before the n-th move. */
  function RequestAt(moves: seq<Move>, n: nat, id: nat): Option<Request>
    requires n <= |moves|
  {
    if n == 0 then None
    else match moves[n - 1]
      case Arrive(i, req) => if i == id then Some(req) else RequestAt(moves, n - 1, id)
      case _ => RequestAt(moves, n - 1, id)
  }

  /** The i-th move answers a request for "/login" with status 200 and `user` as body,
      and issues `token`. */
  predicate AnswersLogin(moves: seq<Move>, i: nat, token: string, user: string) {
    && i < |moves| && moves[i].Respond?
    && RequestAt(moves, i, moves[i].id).Some? && RequestAt(moves, i, moves[i].id).value.path == "/login"
    && moves[i].status == 200 && moves[i].body == user && moves[i].issue == token
  }

  /** The j-th move answers a request for "/logout" that carries `token`. */
  predicate AnswersLogout(moves: seq<Move>, j: nat, token: string) {
    && j < |moves| && moves[j].Respond?
    && RequestAt(moves, j, moves[j].id) == Some(Request("/logout", Some(token)))
  }

  predicate LoginLasts(moves: seq<Move>, i: nat, token: string, user: string) {
    AnswersLogin(moves, i, token, user) && forall j :: i < j < |moves| ==> !AnswersLogout(moves, j, token)
  }

  lemma {:induction false} EarlierAsBefore(moves: seq<Move>, n: nat, k: nat, id: nat)
    requires k <= n <= |moves|
    ensures ClockAt(moves[..n], k) == ClockAt(moves, k)
    ensures RequestAt(moves[..n], k, id) == RequestAt(moves, k, id)
    decreases k
  {
    if k > 0 {
      EarlierAsBefore(moves, n, k - 1, id);
    }
  }

  /** The state has the clock and the requests that the moves tell. */
  lemma {:induction false} RunAsTold(moves: seq<Move>)
    requires Run(BOOT, moves).Some?
    ensures var s := Run(BOOT, moves).value;
            && s.now == ClockAt(moves, |moves|)
            && forall id :: id in s.threads ==> RequestAt(moves, |moves|, id) == Some(s.threads[id].req)
    decreases |moves|
  {
    if moves != [] {
      var n := |moves| - 1;
      RunAsTold(moves[..n]);
      EarlierAsBefore(moves, n, n, 0);
      forall id ensures ClockAt(moves[..n], n) == ClockAt(moves, n) &&
                        RequestAt(moves[..n], n, id) == RequestAt(moves, n, id) {
        EarlierAsBefore(moves, n, n, id);
      }
    }
  }

  lemma AnswersEarlier(moves: seq<Move>, n: nat, i: nat, token: string, user: string)
    requires i < n <= |moves|
    ensures AnswersLogin(moves[..n], i, token, user) == AnswersLogin(moves, i, token, user)
    ensures AnswersLogout(moves[..n], i, token) == AnswersLogout(moves, i, token)
  {
    if moves[i].Respond? {
      EarlierAsBefore(moves, n, i, moves[i].id);
    }
  }

  /** Every login answered before put its token among the issued ones. */
  lemma {:induction false} AnsweredIsIssued(moves: seq<Move>, i: nat, token: string, user: string)
    requires Run(BOOT, moves).Some? && AnswersLogin(moves, i, token, user)
    ensures token in Run(BOOT, moves).value.issued
    decreases |moves|
  {
    var n := |moves| - 1;
    if i < n {
      AnswersEarlier(moves, n, i, token, user);
      AnsweredIsIssued(moves[..n], i, token, user);
    } else {
      RunAsTold(moves[..n]);
      EarlierAsBefore(moves, n, n, moves[n].id);
    }
  }

  ghost predicate Lasts(moves: seq<Move>, token: string, user: string, at: int) {
    exists i: nat :: LoginLasts(moves, i, token, user) && ClockAt(moves, i) == at
  }

  /** A move that neither logs the token in nor out changes nothing for it. */
  lemma LastsUnchanged(moves: seq<Move>, token: string, user: string, at: int)
    requires moves != []
    requires var n := |moves| - 1; !AnswersLogin(moves, n, token, user) && !AnswersLogout(moves, n, token)
    ensures Lasts(moves, token, user, at) <==> Lasts(moves[..|moves| - 1], token, user, at)
  {
    var n := |moves| - 1;
    forall i: nat | i < n
      ensures AnswersLogin(moves[..n], i, token, user) == AnswersLogin(moves, i, token, user)
      ensures AnswersLogout(moves[..n], i, token) == AnswersLogout(moves, i, token)
      ensures ClockAt(moves[..n], i) == ClockAt(moves, i)
    {
      AnswersEarlier(moves, n, i, token, user);
      EarlierAsBefore(moves, n, i, 0);
    }
    hide AnswersLogin, AnswersLogout, ClockAt;
    forall i: nat | i < n ensures LoginLasts(moves, i, token, user) <==> LoginLasts(moves[..n], i, token, user) {
    }
    assert forall i: nat :: LoginLasts(moves, i, token, user) ==> i < |moves|;
  }

  /** What the last move answered, told from the state it was answered in. */
  lemma LastAnswer(moves: seq<Move>, token: string, user: string)
    requires moves != [] && Run(BOOT, moves).Some?
    ensures var n := |moves| - 1;
            var s, m := Run(BOOT, moves[..n]).value, moves[n];
            && ClockAt(moves, n) == s.now
            && (AnswersLogin(moves, n, token, user) <==>
                  && m.Respond? && s.threads[m.id].req.path == "/login" && m.status == 200
                  && m.body == user && m.issue == token)
            && (AnswersLogout(moves, n, token) <==>
                  m.Respond? && s.threads[m.id].req == Request("/logout", Some(token)))
  {
    var n := |moves| - 1;
    RunAsTold(moves[..n]);
    EarlierAsBefore(moves, n, n, 0);
    if moves[n].Respond? {
      EarlierAsBefore(moves, n, n, moves[n].id);
    }
  }

  /** A token is issued once: no earlier login has the token of the last one. */
  lemma LoginReplaces(moves: seq<Move>, token: string, user: string, at: int)
    requires moves != [] && Run(BOOT, moves).Some?
    requires moves[|moves| - 1].Respond? && AnswersLogin(moves, |moves| - 1, token, moves[|moves| - 1].body)
    ensures Lasts(moves, token, user, at) <==> user == moves[|moves| - 1].body && at == ClockAt(moves, |moves| - 1)
  {
    var n := |moves| - 1;
    LastAnswer(moves, token, moves[n].body);
    assert token !in Run(BOOT, moves[..n]).value.issued;
    forall i: nat | LoginLasts(moves, i, token, user) ensures i == n {
      if i < n {
        AnswersEarlier(moves, n, i, token, user);
        AnsweredIsIssued(moves[..n], i, token, user);
      }
    }
    if user == moves[n].body {
      assert LoginLasts(moves, n, token, user);
    }
  }

  /** What the last move does to the standing login of `token`. */
  lemma LastStanding(moves: seq<Move>, token: string)
    requires moves != [] && Run(BOOT, moves).Some?
    ensures var n := |moves| - 1;
            var s, m := Run(BOOT, moves[..n]).value, moves[n];
            Standing(Run(BOOT, moves).value.log, token) ==
            if m.Respond? && s.threads[m.id].req.path == "/login" && m.status == 200 && m.issue == token
            then Some(Login(m.body, s.now))
            else if m.Respond? && s.threads[m.id].req == Request("/logout", Some(token)) then None
            else Standing(s.log, token)
  {
    var n := |moves| - 1;
    var s, m := Run(BOOT, moves[..n]).value, moves[n];
    if m.Respond? {
      var events := RespondEvents(s.now, s.threads[m.id].req, m.status, m.body, m.issue);
      if events == [] {
        assert s.log + events == s.log;
      } else {
        assert events == [events[0]];
        StandingAfter(s.log, events[0], token);
      }
    }
  }

  /** The login that stands in the log is the one that the moves show. */
  lemma {:induction false} StandingAsTold(moves: seq<Move>, token: string, user: string, at: int)
    requires Run(BOOT, moves).Some?
    ensures Standing(Run(BOOT, moves).value.log, token) == Some(Login(user, at)) <==> Lasts(moves, token, user, at)
    decreases |moves|
  {
    if moves != [] {
      var n := |moves| - 1;
      var s, m := Run(BOOT, moves[..n]).value, moves[n];
      StandingAsTold(moves[..n], token, user, at);
      LastAnswer(moves, token, user);
      LastStanding(moves, token);
      if m.Respond? && s.threads[m.id].req.path == "/login" && m.status == 200 && m.issue == token {
        LastAnswer(moves, token, m.body);
        LoginReplaces(moves, token, user, at);
      } else if AnswersLogout(moves, n, token) {
        assert forall i: nat :: AnswersLogin(moves, i, token, user) ==> i < |moves|;
      } else {
        LastsUnchanged(moves, token, user, at);
      }
    }
  }

  /** In every run, under every interleaving, the wrapped handler of a request sees user
      `u` exactly when an earlier request for "/login" was answered with status 200 and
      body `u`, issuing the request's token at most 24 hours ago, and since then no
      request for "/logout" with that token was answered. */
  lemma HandlerSeesUser(moves: seq<Move>, id: nat, u: string)
    requires Run(BOOT, moves).Some?
    requires Next(Run(BOOT, moves).value, Read(id)).Some?
    ensures var thread := Next(Run(BOOT, moves).value, Read(id)).value.threads[id];
            var req := RequestAt(moves, |moves|, id);
            req.Some? &&
            ((thread.Handling? && thread.seen.Some? && thread.seen.value.user == u) <==>
             (req.value.token.Some? &&
              exists i: nat :: LoginLasts(moves, i, req.value.token.value, u) &&
                               ClockAt(moves, |moves|) <= ClockAt(moves, i) + 24 * 3600 * 1_000_000_000))
  {
    RunKeepsInv(moves);
    RunAsTold(moves);
    HandlerSeesLogin(moves, id, u);
    var s := Run(BOOT, moves).value;
    var req := s.threads[id].req;
    if req.token.Some? {
      LoggedInAsTold(moves, req.token.value, u);
    }
  }

  /** The log and the moves agree on who is logged in. */
  lemma LoggedInAsTold(moves: seq<Move>, token: string, u: string)
    requires Run(BOOT, moves).Some? && SystemInv(Run(BOOT, moves).value)
    ensures var s := Run(BOOT, moves).value;
            IsLoggedIn(s.log, token, u, s.now) <==>
            exists i: nat :: LoginLasts(moves, i, token, u) && s.now <= ClockAt(moves, i) + LIFETIME
  {
    var s := Run(BOOT, moves).value;
    hide Run, Standing, StandsSince, LoginLasts, ClockAt, RequestAt;
    if i: nat :| StandsSince(s.log, i, token) && s.log[i].user == u && s.now <= s.log[i].at + LIFETIME {
      StandingIffStands(s.log, token, u, s.log[i].at);
      StandingAsTold(moves, token, u, s.log[i].at);
    }
    if i: nat :| LoginLasts(moves, i, token, u) && s.now <= ClockAt(moves, i) + LIFETIME {
      StandingAsTold(moves, token, u, ClockAt(moves, i));
      StandingIffStands(s.log, token, u, ClockAt(moves, i));
    }
  }

  /** The late erase of get_session never takes away a live session: in every
      interleaving it leaves every lookup as it was. */
  lemma LateEraseIsHarmless(moves: seq<Move>, id: nat)
    requires Run(BOOT, moves).Some?
    requires var s := Run(BOOT, moves).value; id in s.threads && s.threads[id].Erasing?
    ensures var s := Run(BOOT, moves).value;
            var s' := Next(s, EraseExpired(id));
            s'.Some? && LiveAt(s'.value.table, s.now) == LiveAt(s.table, s.now)
  {
    RunKeepsInv(moves);
    var s := Run(BOOT, moves).value;
    assert ErasingInv(s);
  }

  // ----- The two-step get_session is atomic to everyone looking -----

  /** The store operation that takes effect in a step: get_session does when it reads. */
  function Effect(s: System, m: Move): Option<TimedOp> {
    match m
    case Read(id) =>
      if id in s.threads && s.threads[id].req.token.Some?
      then Some(At(GetSession(s.threads[id].req.token.value), s.now)) else None
    case Respond(id, status, body, issue) =>
      if id !in s.threads then None
      else
        var req := s.threads[id].req;
        if IsLogin(req, status) then Some(At(CreateSession(issue, body), s.now))
        else if req.path == "/logout" && req.token.Some? then
          Some(At(InvalidateSession(req.token.value), s.now))
        else None
    case Cleanup => Some(At(CleanupExpiredSessions, s.now))
    case UpdateData(token, key, value) => Some(At(UpdateSessionData(token, key, value), s.now))
    case _ => None
  }

  /** The same, told from the moves: a request with a token reads its session, a "/login"
      answered 200 creates one, and a "/logout" with a token ends it. */
  function OpOf(moves: seq<Move>, n: nat): Option<TimedOp>
    requires n < |moves|
  {
    var now := ClockAt(moves, n);
    match moves[n]
    case Read(id) =>
      (match RequestAt(moves, n, id)
       case Some(Request(_, Some(token))) => Some(At(GetSession(token), now))
       case _ => None)
    case Respond(id, status, body, issue) =>
      (match RequestAt(moves, n, id)
       case None => None
       case Some(Request(path, token)) =>
         if path == "/login" && status == 200 then Some(At(CreateSession(issue, body), now))
         else if path == "/logout" && token.Some? then Some(At(InvalidateSession(token.value), now))
         else None)
    case Cleanup => Some(At(CleanupExpiredSessions, now))
    case UpdateData(token, key, value) => Some(At(UpdateSessionData(token, key, value), now))
    case Tick(_) => None
    case Arrive(_, _) => None
    case EraseExpired(_) => None
  }

  lemma EffectAsTold(moves: seq<Move>)
    requires moves != [] && Run(BOOT, moves).Some?
    ensures var n := |moves| - 1; Effect(Run(BOOT, moves[..n]).value, moves[n]) == OpOf(moves, n)
  {
    var n := |moves| - 1;
    RunAsTold(moves[..n]);
    EarlierAsBefore(moves, n, n, 0);
    if moves[n].Read? || moves[n].Respond? {
      EarlierAsBefore(moves, n, n, moves[n].id);
    }
  }

  /** The table after the same run when every operation is one atomic step. */
  function AtomicTable(moves: seq<Move>): Table
    decreases |moves|
  {
    if moves == [] then map[]
    else
      var n := |moves| - 1;
      match OpOf(moves, n)
      case None => AtomicTable(moves[..n])
      case Some(x) => Apply(AtomicTable(moves[..n]), x)
  }

  lemma NextActsAsEffect(s: System, m: Move)
    requires SystemInv(s) && Next(s, m).Some?
    ensures var x := Effect(s, m);
            LiveAt(Next(s, m).value.table, s.now) == LiveAt(if x.Some? then Apply(s.table, x.value) else s.table, s.now)
  {
    if m.Read? && Effect(s, m).Some? {
      var x := Effect(s, m).value;
      forall k ensures Lookup(s.table, k, s.now) == Lookup(Apply(s.table, x), k, s.now) {
        LookupAfter(s.table, x, k);
      }
      LiveIffLookup(s.table, Apply(s.table, x), s.now);
    } else if m.Cleanup? {
      CleanupKeepsLive(s.table, s.now);
    }
  }

  /** Every interleaving leaves the live sessions of some run of atomic operations:
      reads answer as if get_session did all its work when it reads. */
  lemma {:induction false} TwoStepGetIsAtomic(moves: seq<Move>)
    requires Run(BOOT, moves).Some?
    ensures var s := Run(BOOT, moves).value;
            LiveAt(s.table, s.now) == LiveAt(AtomicTable(moves), s.now)
    decreases |moves|
  {
    if moves != [] {
      var n := |moves| - 1;
      var s, m, t := Run(BOOT, moves[..n]).value, moves[n], AtomicTable(moves[..n]);
      TwoStepGetIsAtomic(moves[..n]);
      RunKeepsInv(moves[..n]);
      NextActsAsEffect(s, m);
      var x := Effect(s, m);
      EffectIsNow(s, m);
      EffectAsTold(moves);
      hide Effect, OpOf, Apply, LiveAt, SystemInv;
      if x.Some? {
        ApplyRespectsLive(s.table, t, x.value);
      }
      LiveLater(Next(s, m).value.table, AtomicTable(moves), s.now, Next(s, m).value.now);
    }
  }

  lemma EffectIsNow(s: System, m: Move)
    ensures Effect(s, m).Some? ==> Effect(s, m).value.now == s.now
  {
  }
}

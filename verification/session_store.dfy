/** The session table: what each operation does to it, and that throwing expired
    sessions away early or late makes no difference to anyone. */
module SessionTable {
  import opened Wrappers

  /** Clock ticks are nanoseconds. */
  const HOUR: int := 3600 * 1_000_000_000
  const LIFETIME: int := 24 * HOUR

  datatype Session = Session(user: string, expires: int, data: map<string, string>)

  type Table = map<string, Session>

  predicate Expired(s: Session, now: int) { now > s.expires }

  function Create(t: Table, token: string, user: string, now: int): Table {
    t[token := Session(user, now + LIFETIME, map[])]
  }

  /** What get_session returns, decided under the shared lock. */
  function Lookup(t: Table, token: string, now: int): Option<Session> {
    if token in t && !Expired(t[token], now) then Some(t[token]) else None
  }

  /** Whether get_session goes on to erase the token under the exclusive lock. */
  predicate FoundExpired(t: Table, token: string, now: int) {
    token in t && Expired(t[token], now)
  }

  function Erase(t: Table, token: string): Table { t - {token} }

  function Update(t: Table, token: string, key: string, value: string): Table {
    if token in t then t[token := t[token].(data := t[token].data[key := value])] else t
  }

  /** The sessions that have not expired. */
  function LiveAt(t: Table, now: int): Table {
    map k | k in t && !Expired(t[k], now) :: t[k]
  }

  // ----- Sequences of store operations -----

  datatype Op =
    | CreateSession(token: string, user: string)
    | GetSession(token: string)
    | InvalidateSession(token: string)
    | UpdateSessionData(token: string, key: string, value: string)
    | CleanupExpiredSessions

  datatype TimedOp = At(op: Op, now: int)

  function Apply(t: Table, x: TimedOp): Table {
    match x.op
    case CreateSession(token, user) => Create(t, token, user, x.now)
    case GetSession(token) => if FoundExpired(t, token, x.now) then Erase(t, token) else t
    case InvalidateSession(token) => Erase(t, token)
    case UpdateSessionData(token, key, value) => Update(t, token, key, value)
    case CleanupExpiredSessions => LiveAt(t, x.now)
  }

  /** The answers of the get_session calls of a run, in order. */
  function Answers(t: Table, run: seq<TimedOp>): seq<Option<Session>>
    decreases |run|
  {
    if run == [] then []
    else
      var x := run[0];
      (if x.op.GetSession? then [Lookup(t, x.op.token, x.now)] else []) + Answers(Apply(t, x), run[1..])
  }

  /** The clock never goes back, and starts no earlier than `now`. */
  predicate Monotone(run: seq<TimedOp>, now: int)
    decreases |run|
  {
    run == [] || (now <= run[0].now && Monotone(run[1..], run[0].now))
  }

  function WithoutCleanups(run: seq<TimedOp>): seq<TimedOp> {
    if run == [] then []
    else (if run[0].op.CleanupExpiredSessions? then [] else [run[0]]) + WithoutCleanups(run[1..])
  }

  /** Equal live views stay equal as time passes. */
  lemma LiveLater(a: Table, b: Table, now: int, later: int)
    requires LiveAt(a, now) == LiveAt(b, now) && now <= later
    ensures LiveAt(a, later) == LiveAt(b, later)
  {
    forall k | k in LiveAt(a, later) ensures k in LiveAt(b, later) && a[k] == b[k] {
      assert LiveAt(a, now)[k] == LiveAt(b, now)[k];
    }
    forall k | k in LiveAt(b, later) ensures k in LiveAt(a, later) {
      assert LiveAt(b, now)[k] == LiveAt(a, now)[k];
    }
  }

  /** The live view is what lookups see. */
  lemma LiveIffLookup(a: Table, b: Table, now: int)
    ensures LiveAt(a, now) == LiveAt(b, now) <==> forall k :: Lookup(a, k, now) == Lookup(b, k, now)
  {
    var la, lb := LiveAt(a, now), LiveAt(b, now);
    if la == lb {
      forall k ensures Lookup(a, k, now) == Lookup(b, k, now) {
        assert k in la <==> k in lb;
        assert k in la ==> la[k] == lb[k];
      }
    }
    if forall k :: Lookup(a, k, now) == Lookup(b, k, now) {
      forall k ensures (k in la <==> k in lb) && (k in la ==> la[k] == lb[k]) {
        assert Lookup(a, k, now) == Lookup(b, k, now);
      }
    }
  }

  /** What a lookup sees after an operation depends on what it saw before, and on
      nothing else: lazy and eager erasing of expired sessions leave every lookup alone. */
  lemma LookupAfter(t: Table, x: TimedOp, k: string)
    ensures Lookup(Apply(t, x), k, x.now) ==
            var before := Lookup(t, k, x.now);
            match x.op
            case CreateSession(token, user) =>
              if k == token then Some(Session(user, x.now + 24 * 3600 * 1_000_000_000, map[])) else before
            case InvalidateSession(token) => if k == token then None else before
            case UpdateSessionData(token, key, value) =>
              if k == token && before.Some?
              then Some(before.value.(data := before.value.data[key := value]))
              else before
            case GetSession(_) => before
            case CleanupExpiredSessions => before
  {
  }

  /** Every operation answers from, and acts on, the live view alone. */
  lemma ApplyRespectsLive(a: Table, b: Table, x: TimedOp)
    requires LiveAt(a, x.now) == LiveAt(b, x.now)
    ensures LiveAt(Apply(a, x), x.now) == LiveAt(Apply(b, x), x.now)
    ensures x.op.GetSession? ==> Lookup(a, x.op.token, x.now) == Lookup(b, x.op.token, x.now)
  {
    hide Apply, LiveAt, Lookup;
    LiveIffLookup(a, b, x.now);
    forall k ensures Lookup(Apply(a, x), k, x.now) == Lookup(Apply(b, x), k, x.now) {
      LookupAfter(a, x, k);
      LookupAfter(b, x, k);
      assert Lookup(a, k, x.now) == Lookup(b, k, x.now);
    }
    LiveIffLookup(Apply(a, x), Apply(b, x), x.now);
  }

  lemma CleanupKeepsLive(t: Table, now: int)
    ensures LiveAt(LiveAt(t, now), now) == LiveAt(t, now)
  {
  }

  lemma {:induction false} AnswersFromLive(a: Table, b: Table, run: seq<TimedOp>, now: int)
    requires Monotone(run, now) && LiveAt(a, now) == LiveAt(b, now)
    ensures Answers(a, run) == Answers(b, WithoutCleanups(run))
    decreases |run|
  {
    if run != [] {
      var x, rest := run[0], run[1..];
      LiveLater(a, b, now, x.now);
      if x.op.CleanupExpiredSessions? {
        CleanupKeepsLive(a, x.now);
        AnswersFromLive(Apply(a, x), b, rest, x.now);
        assert WithoutCleanups(run) == WithoutCleanups(rest);
      } else {
        ApplyRespectsLive(a, b, x);
        AnswersFromLive(Apply(a, x), Apply(b, x), rest, x.now);
        assert WithoutCleanups(run) == [x] + WithoutCleanups(rest);
        assert WithoutCleanups(run)[1..] == WithoutCleanups(rest);
      }
    }
  }

  /** Cleanups may be put in or left out anywhere in a run: no get_session call
      answers differently. */
  lemma CleanupsAreInvisible(t: Table, run: seq<TimedOp>, run': seq<TimedOp>, now: int)
    requires Monotone(run, now) && Monotone(run', now)
    requires WithoutCleanups(run) == WithoutCleanups(run')
    ensures Answers(t, run) == Answers(t, run')
  {
    AnswersFromLive(t, t, run, now);
    AnswersFromLive(t, t, run', now);
  }
}

/** SessionStore over shared SessionData objects. */
module SessionStores {
  import opened Wrappers
  import opened SessionTable

  class SessionData {
    const userId: string
    const createdAt: int
    const expiresAt: int
    var data: map<string, string>

    constructor (uid: string, now: int)
      ensures userId == uid && createdAt == now && expiresAt == now + LIFETIME && data == map[]
    {
      userId, createdAt, expiresAt, data := uid, now, now + LIFETIME, map[];
    }

    ghost function View(): Session
      reads this
    {
      Session(userId, expiresAt, data)
    }
  }

  class SessionStore {
    var sessions: map<string, SessionData>

    /** No two tokens share their data. */
    ghost predicate Valid()
      reads this
    {
      forall s, t :: s in sessions && t in sessions && sessions[s] == sessions[t] ==> s == t
    }

    ghost function View(): Table
      reads this, sessions.Values
    {
      map k | k in sessions :: sessions[k].View()
    }

    constructor ()
      ensures Valid() && View() == map[]
    {
      sessions := map[];
    }

    method CreateSession(userId: string, token: string, now: int)
      requires Valid()
      modifies this
      ensures Valid() && View() == Create(old(View()), token, userId, now)
      ensures token in sessions && fresh(sessions[token]) && sessions == old(sessions)[token := sessions[token]]
      ensures var session := sessions[token];
              && session.userId == userId && session.data == map[]
              && session.createdAt == now && session.expiresAt == now + 24 * 3600 * 1_000_000_000
    {
      var data := new SessionData(userId, now);
      sessions := sessions[token := data];
    }

    /** The part of get_session under the shared lock. */
    method ReadSession(token: string, now: int) returns (found: SessionData?, eraseNext: bool)
      requires Valid()
      ensures found == null <==> Lookup(View(), token, now) == None
      ensures found != null ==> token in sessions && found == sessions[token] &&
                                Lookup(View(), token, now) == Some(found.View())
      ensures eraseNext == FoundExpired(View(), token, now)
      ensures token in sessions && now <= sessions[token].expiresAt ==> found == sessions[token]
      ensures token in sessions ==> eraseNext == (now > sessions[token].expiresAt)
    {
      if token !in sessions {
        return null, false;
      }
      var data := sessions[token];
      if now > data.expiresAt {
        return null, true;
      }
      return data, false;
    }

    /** The part of get_session under the exclusive lock, and invalidate_session. */
    method InvalidateSession(token: string)
      requires Valid()
      modifies this
      ensures Valid() && View() == Erase(old(View()), token)
      ensures sessions == old(sessions) - {token}
    {
      sessions := sessions - {token};
    }

    /** get_session when nothing runs between its two parts. */
    method GetSession(token: string, now: int) returns (found: SessionData?)
      requires Valid()
      modifies this
      ensures Valid()
      ensures token in old(sessions) && now <= old(sessions)[token].expiresAt ==>
                found == old(sessions)[token] && sessions == old(sessions)
      ensures token !in old(sessions) || now > old(sessions)[token].expiresAt ==>
                found == null && sessions == old(sessions) - {token}
      ensures found == null <==> Lookup(old(View()), token, now) == None
      ensures found != null ==> Lookup(old(View()), token, now) == Some(found.View())
      ensures View() == Apply(old(View()), At(Op.GetSession(token), now))
    {
      var eraseNext;
      found, eraseNext := ReadSession(token, now);
      if eraseNext {
        InvalidateSession(token);
      }
    }

    method UpdateSessionData(token: string, key: string, value: string)
      requires Valid()
      modifies sessions.Values
      ensures Valid() && View() == Update(old(View()), token, key, value)
      ensures forall k :: k in sessions ==>
                sessions[k].data == if k == token then old(sessions[k].data)[key := value] else old(sessions[k].data)
    {
      if token in sessions {
        sessions[token].data := sessions[token].data[key := value];
      }
    }

    /** The erase-while-iterating loop, for any iteration order. */
    method CleanupExpiredSessions(now: int)
      requires Valid()
      modifies this
      ensures Valid() && View() == LiveAt(old(View()), now)
      ensures sessions == map k | k in old(sessions) && now <= old(sessions)[k].expiresAt :: old(sessions)[k]
    {
      var unseen := sessions.Keys;
      while unseen != {}
        invariant Valid() && unseen <= sessions.Keys <= old(sessions).Keys
        invariant forall k :: k in sessions ==> sessions[k] == old(sessions)[k]
        invariant forall k :: k in old(sessions) && k !in unseen ==>
                    (k in sessions <==> now <= old(sessions)[k].expiresAt)
        decreases unseen
      {
        var token :| token in unseen;
        unseen := unseen - {token};
        if now > sessions[token].expiresAt {
          sessions := sessions - {token};
        }
      }
    }
  }
}

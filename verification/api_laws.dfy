/** What a client of the CRUD handler can rely on, over whole runs of requests that
    start on an empty store. Everything is told from requests and replies alone. */
module ApiLaws {
  import opened Wrappers
  import opened Text
  import opened Shelves
  import opened FileStores
  import opened ApiHandlers

  datatype Exchange = Exchange(req: ApiRequest, validJson: bool, status: int, reply: Reply)

  function TargetOf(mount: string, x: Exchange): Target {
    ParsePath(mount, x.req.path)
  }

  /** The table the run leaves. */
  function State(mount: string, run: seq<Exchange>): Shelves {
    if run == [] then map[]
    else
      var n := |run| - 1;
      AfterReply(State(mount, run[..n]), TargetOf(mount, run[n]), run[n].req, run[n].reply)
  }

  /** Every request can be served after what went before, and is answered as the handler
      answers it then. */
  ghost predicate IsRun(mount: string, run: seq<Exchange>) {
    run == [] ||
    var n := |run| - 1;
    && IsRun(mount, run[..n])
    && CanServe(State(mount, run[..n]), TargetOf(mount, run[n]), run[n].req)
    && IsReply(State(mount, run[..n]), TargetOf(mount, run[n]), run[n].req, run[n].validJson, run[n].reply)
    && (!run[n].reply.Threw? ==> run[n].status == Status(run[n].reply))
  }

  /** The exchange stored a body under this entity and id. */
  predicate Stores(mount: string, x: Exchange, entity: string, id: int) {
    var t := TargetOf(mount, x);
    t.Target? && t.entity == entity &&
    (x.reply == Created(id) || (t.id.Some? && x.reply == Updated(id)))
  }

  predicate Deletes(mount: string, x: Exchange, entity: string, id: int) {
    TargetOf(mount, x) == Target(entity, Some(id)) && x.reply == Deleted
  }

  /** The body stored last under this entity and id, unless it was deleted since. */
  function LastStored(mount: string, run: seq<Exchange>, entity: string, id: int): Option<string> {
    if run == [] then None
    else
      var n := |run| - 1;
      if Stores(mount, run[n], entity, id) then Some(run[n].req.body)
      else if Deletes(mount, run[n], entity, id) then None
      else LastStored(mount, run[..n], entity, id)
  }

  lemma {:induction false} StateHoldsLastStored(mount: string, run: seq<Exchange>, entity: string, id: int)
    ensures Get(State(mount, run), entity, id) == LastStored(mount, run, entity, id)
    decreases |run|
  {
    if run != [] {
      hide ParsePath;
      StateHoldsLastStored(mount, run[..|run| - 1], entity, id);
    }
  }

  /** Some exchange of the run stored something in the entity. */
  predicate EverStored(mount: string, run: seq<Exchange>, entity: string) {
    run != [] &&
    var n := |run| - 1;
    var t, r := TargetOf(mount, run[n]), run[n].reply;
    || (t.Target? && t.entity == entity && (r.Created? || (t.id.Some? && r.Updated?)))
    || EverStored(mount, run[..n], entity)
  }

  /** An entity is known from then on, also when all its entries are deleted. */
  lemma {:induction false} KnownIffStored(mount: string, run: seq<Exchange>, entity: string)
    ensures entity in State(mount, run) <==> EverStored(mount, run, entity)
    decreases |run|
  {
    if run != [] {
      hide ParsePath;
      KnownIffStored(mount, run[..|run| - 1], entity);
    }
  }

  /** GET of one entry is 200 with the body stored last, and 404 exactly without one. */
  lemma GetAnswersLastStored(mount: string, run: seq<Exchange>, entity: string, id: int)
    requires run != [] && IsRun(mount, run)
    requires var x := run[|run| - 1]; x.req.verb == "GET" && TargetOf(mount, x) == Target(entity, Some(id))
    ensures var x, stored := run[|run| - 1], LastStored(mount, run[..|run| - 1], entity, id);
            && (stored.Some? ==> x.status == 200 && x.reply == Content(stored.value))
            && (stored == None ==> x.status == 404)
            && SameEntries(mount, run)
  {
    StateHoldsLastStored(mount, run[..|run| - 1], entity, id);
    KeepsEntries(mount, run);
  }

  /** The last exchange leaves every entry as it was. */
  ghost predicate SameEntries(mount: string, run: seq<Exchange>)
    requires run != []
  {
    forall e, i :: LastStored(mount, run, e, i) == LastStored(mount, run[..|run| - 1], e, i)
  }

  /** The last exchange leaves every entry but this one as it was. */
  ghost predicate SameElsewhere(mount: string, run: seq<Exchange>, entity: string, id: int)
    requires run != []
  {
    forall e, i :: (e, i) != (entity, id) ==>
      LastStored(mount, run, e, i) == LastStored(mount, run[..|run| - 1], e, i)
  }

  lemma KeepsEntries(mount: string, run: seq<Exchange>)
    requires run != []
    requires var r := run[|run| - 1].reply; !r.Created? && !r.Updated? && !r.Deleted?
    ensures SameEntries(mount, run)
  {
    hide ParsePath;
  }

  /** POST is 201, takes the id behind the largest that holds something, 0 if there is none
      above -1, and touches no other entry. */
  lemma PostTakesUnusedId(mount: string, run: seq<Exchange>, entity: string)
    requires run != [] && IsRun(mount, run)
    requires var x := run[|run| - 1]; x.req.verb == "POST" && TargetOf(mount, x) == Target(entity, None)
    ensures var before, x := run[..|run| - 1], run[|run| - 1];
            && x.status == 201 && x.reply.Created? && x.reply.id >= 0
            && (forall i :: LastStored(mount, before, entity, i).Some? ==> i < x.reply.id)
            && (x.reply.id > 0 ==> LastStored(mount, before, entity, x.reply.id - 1).Some?)
            && LastStored(mount, run, entity, x.reply.id) == Some(x.req.body)
            && SameElsewhere(mount, run, entity, x.reply.id)
  {
    hide ParsePath;
    var before := run[..|run| - 1];
    forall i ensures Get(State(mount, before), entity, i) == LastStored(mount, before, entity, i) {
      StateHoldsLastStored(mount, before, entity, i);
    }
  }

  /** LIST answers the ids that GET answers 200, ascending; 404 exactly when nothing was
      ever stored in the entity. */
  lemma ListAnswersStoredIds(mount: string, run: seq<Exchange>, entity: string)
    requires run != [] && IsRun(mount, run)
    requires var x := run[|run| - 1]; x.req.verb == "GET" && TargetOf(mount, x) == Target(entity, None)
    ensures var before, x := run[..|run| - 1], run[|run| - 1];
            && (x.status == 404 <==> !EverStored(mount, before, entity))
            && (x.status != 404 ==>
                  && x.status == 200 && x.reply.Listing?
                  && (forall i, j :: 0 <= i < j < |x.reply.ids| ==> x.reply.ids[i] < x.reply.ids[j])
                  && (forall id :: id in x.reply.ids <==> LastStored(mount, before, entity, id).Some?))
            && SameEntries(mount, run)
  {
    var before, reply := run[..|run| - 1], run[|run| - 1].reply;
    KnownIffStored(mount, before, entity);
    KeepsEntries(mount, run);
    var s := State(mount, before);
    hide State, IsRun, Stores, SameEntries;
    if reply != NotFoundReply {
      forall id ensures id in reply.ids <==> LastStored(mount, before, entity, id).Some? {
        StateHoldsLastStored(mount, before, entity, id);
        assert id in reply.ids <==> id in s[entity].Keys;
      }
    }
  }

  /** PUT of valid JSON is 200 and what GET answers from then on; PUT of anything else is
      400 and changes nothing. */
  lemma PutStores(mount: string, run: seq<Exchange>, entity: string, id: int)
    requires run != [] && IsRun(mount, run)
    requires var x := run[|run| - 1]; x.req.verb == "PUT" && TargetOf(mount, x) == Target(entity, Some(id))
    ensures var x := run[|run| - 1];
            && (x.validJson ==>
                  && x.status == 200 && LastStored(mount, run, entity, id) == Some(x.req.body)
                  && SameElsewhere(mount, run, entity, id))
            && (!x.validJson ==> x.status == 400 && SameEntries(mount, run))
  {
    hide ParsePath;
    if !run[|run| - 1].validJson {
      KeepsEntries(mount, run);
    }
  }

  /** DELETE is 200 on entries that GET finds, which it then no longer finds, and 404 on
      the others. */
  lemma DeleteForgets(mount: string, run: seq<Exchange>, entity: string, id: int)
    requires run != [] && IsRun(mount, run)
    requires var x := run[|run| - 1]; x.req.verb == "DELETE" && TargetOf(mount, x) == Target(entity, Some(id))
    ensures run[|run| - 1].status == if LastStored(mount, run[..|run| - 1], entity, id).Some? then 200 else 404
    ensures LastStored(mount, run, entity, id) == None && SameElsewhere(mount, run, entity, id)
  {
    hide ParsePath;
    StateHoldsLastStored(mount, run[..|run| - 1], entity, id);
  }

  /** A path that does not parse is 404, and every other combination of verb and path 400;
      nothing changes then. */
  lemma OthersAreRefused(mount: string, run: seq<Exchange>)
    requires run != [] && IsRun(mount, run)
    ensures var x := run[|run| - 1];
            var t := TargetOf(mount, x);
            && (t == NoMatch ==> x.status == 404 && SameEntries(mount, run))
            && (t == IdOutOfRange ==> x.reply == Threw && SameEntries(mount, run))
            && (t.Target? && x.req.verb !in (if t.id == None then {"GET", "POST"} else {"GET", "PUT", "DELETE"}) ==>
                  x.status == 400 && SameEntries(mount, run))
  {
    hide ParsePath;
    var r := run[|run| - 1].reply;
    if !r.Created? && !r.Updated? && !r.Deleted? {
      KeepsEntries(mount, run);
    }
  }

  // ----- Serving requests makes such runs -----

  /** Serves the requests on an empty store, up to the first that cannot be served. */
  method Serve(mount: string, reqs: seq<ApiRequest>, isJson: string -> bool)
    returns (run: seq<Exchange>, handler: ApiHandler)
    ensures IsRun(mount, run) && AllCanonical(handler.store.folders)
    ensures OnDisk(handler.store.folders) == State(mount, run)
    ensures |run| <= |reqs| && forall k :: 0 <= k < |run| ==>
              run[k].req == reqs[k] && run[k].validJson == isJson(reqs[k].body)
    ensures |run| < |reqs| ==>
              !CanServe(State(mount, run), ParsePath(mount, reqs[|run|].path), reqs[|run|])
    ensures IdsFit(mount, reqs) ==> |run| == |reqs|
  {
    hide IsReply, AfterReply, ParsePath, IdsFit;
    var store := new DiskFileStore();
    handler := new ApiHandler(mount, store);
    run := [];
    for k := 0 to |reqs|
      invariant |run| == k && fresh(store) && handler.store == store && handler.mount == mount
      invariant AllCanonical(store.folders) && OnDisk(store.folders) == State(mount, run)
      invariant IsRun(mount, run)
      invariant forall j :: 0 <= j < k ==> run[j].req == reqs[j] && run[j].validJson == isJson(reqs[j].body)
    {
      if IdsFit(mount, reqs) {
        FittingRequestsAreServed(mount, reqs, run);
      }
      var canServe := CanServeNext(handler, reqs[k]);
      if !canServe {
        return;
      }
      var status, reply := handler.HandleRequest(reqs[k], isJson);
      ghost var before := run;
      run := run + [Exchange(reqs[k], isJson(reqs[k].body), status, reply)];
      assert run[..k] == before;
    }
  }

  /** CanServe, asked of the disk. */
  method CanServeNext(handler: ApiHandler, req: ApiRequest) returns (b: bool)
    requires AllCanonical(handler.store.folders)
    ensures b == CanServe(OnDisk(handler.store.folders), ParsePath(handler.mount, req.path), req)
  {
    hide ToDecimal;
    var t := ParsePath(handler.mount, req.path);
    var folders := handler.store.folders;
    if !t.Target? {
      return true;
    }
    FileIsBlob(folders, t.entity, INT_MAX);
    b := t.entity != "." && t.entity != ".." &&
         (req.verb == "POST" && t.id == None ==> ToDecimal(INT_MAX) !in DirectoryOf(folders, t.entity));
  }

  // ----- Requests that are all served -----

  /** Plain entities, and ids so small that a POST for each request cannot exhaust them. */
  predicate IdsFit(mount: string, reqs: seq<ApiRequest>) {
    && |reqs| <= INT_MAX
    && forall k :: 0 <= k < |reqs| ==> Fits(ParsePath(mount, reqs[k].path), INT_MAX - |reqs|)
  }

  predicate Fits(t: Target, limit: int) {
    t.Target? ==> t.entity != "." && t.entity != ".." && (t.id.Some? ==> t.id.value < limit)
  }

  /** No id in the table is as large as `limit`. */
  ghost predicate IdsBelow(s: Shelves, limit: int) {
    forall e, i :: e in s && i in s[e] ==> i < limit
  }

  /** Every exchange raises the bound on ids by at most one. */
  lemma {:induction false} IdsGrowSlowly(mount: string, run: seq<Exchange>, limit: int)
    requires IsRun(mount, run) && limit >= 0
    requires forall k :: 0 <= k < |run| ==> Fits(TargetOf(mount, run[k]), limit)
    ensures IdsBelow(State(mount, run), limit + |run|)
    decreases |run|
  {
    if run != [] {
      var n := |run| - 1;
      assert forall k :: 0 <= k < n ==> run[..n][k] == run[k];
      IdsGrowSlowly(mount, run[..n], limit);
      ReplyRaisesIds(State(mount, run[..n]), TargetOf(mount, run[n]), run[n], limit + n, limit);
    }
  }

  lemma ReplyRaisesIds(s: Shelves, t: Target, x: Exchange, bound: int, limit: int)
    requires IdsBelow(s, bound) && 0 <= limit <= bound && Fits(t, limit)
    requires IsReply(s, t, x.req, x.validJson, x.reply)
    ensures IdsBelow(AfterReply(s, t, x.req, x.reply), bound + 1)
  {
  }

  lemma FittingRequestsAreServed(mount: string, reqs: seq<ApiRequest>, run: seq<Exchange>)
    requires IdsFit(mount, reqs) && IsRun(mount, run) && |run| < |reqs|
    requires forall k :: 0 <= k < |run| ==> run[k].req == reqs[k]
    ensures CanServe(State(mount, run), ParsePath(mount, reqs[|run|].path), reqs[|run|])
  {
    hide ParsePath, State, IsRun;
    IdsGrowSlowly(mount, run, INT_MAX - |reqs|);
    assert Fits(ParsePath(mount, reqs[|run|].path), INT_MAX - |reqs|);
  }
}

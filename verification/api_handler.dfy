/** The CRUD handler over the disk store, and the keyed map that it is. */
module ApiHandlers {
  import opened Wrappers
  import opened Text
  import opened Sorting
  import opened Files
  import opened Shelves
  import opened FileStores

  // ----- Paths -----

  /** parse_path: no match, an entity with an optional id, or the out_of_range that
      stoi throws on too long a number. */
  datatype Target = NoMatch | Target(entity: string, id: Option<int>) | IdOutOfRange

  predicate NotSlash(c: char) { c != '/' }

  function ParsePath(mount: string, path: string): (t: Target)
    ensures t.Target? && t.id.Some? ==> IsInt(t.id.value)
  {
    if !(mount <= path) then NoMatch else ParseRest(path[|mount|..])
  }

  /** The pattern ^/([^/]+)(?:/(\d+))?$ on what follows the mount. */
  function ParseRest(rest: string): (t: Target)
    ensures t.Target? && t.id.Some? ==> IsInt(t.id.value)
  {
    if rest == [] || rest[0] != '/' then NoMatch
    else
      var n := Span(rest[1..], NotSlash);
      if n == 0 then NoMatch else ParseTail(rest[1..n + 1], rest[n + 1..])
  }

  /** What follows the entity: nothing, or a slash and digits to the end. */
  function ParseTail(entity: string, tail: string): (t: Target)
    requires tail == [] || tail[0] == '/'
    ensures t.Target? && t.id.Some? ==> IsInt(t.id.value)
  {
    if tail == [] then Target(entity, None)
    else if |tail| >= 2 && AllDigits(tail[1..]) then
      (match Stoi(tail[1..])
       case None => IdOutOfRange
       case Some(id) => Target(entity, Some(id)))
    else NoMatch
  }

  predicate IsEntity(entity: string) {
    entity != [] && forall i :: 0 <= i < |entity| ==> entity[i] != '/'
  }

  predicate IsDigits(digits: string) {
    digits != [] && forall i :: 0 <= i < |digits| ==> '0' <= digits[i] <= '9'
  }

  /** What a path built from a mount, an entity and digits parses to. */
  lemma ParseDigitsPath(mount: string, entity: string, digits: string)
    requires IsEntity(entity) && IsDigits(digits)
    ensures ParsePath(mount, mount + ("/" + entity + "/" + digits)) ==
            match Stoi(digits) case None => IdOutOfRange case Some(id) => Target(entity, Some(id))
  {
    hide Stoi;
    CutFront(mount, "/" + entity + "/" + digits);
    ParseBuiltRest(entity, "/" + digits);
    hide ParseRest;
    assert "/" + entity + ("/" + digits) == "/" + entity + "/" + digits;
    assert ("/" + digits)[1..] == digits && AllDigits(digits);
  }

  /** Parsing a path built from a mount, an entity and an id gives them back. */
  lemma ParseBuiltPath(mount: string, entity: string, id: nat)
    requires IsEntity(entity)
    ensures ParsePath(mount, mount + ("/" + entity)) == Target(entity, None)
    ensures ParsePath(mount, mount + ("/" + entity + "/" + ToDecimal(id))) ==
            if IsInt(id) then Target(entity, Some(id)) else IdOutOfRange
  {
    CutFront(mount, "/" + entity);
    ParseEntity(entity);
    var digits := ToDecimal(id);
    assert IsDigits(digits) by {
      assert forall i :: 0 <= i < |digits| ==> digits[i] in digits;
    }
    hide ParseRest, ToDecimal, ParsePath, Stoi;
    StoiOfDecimal(id, "");
    assert digits + "" == digits;
    ParseDigitsPath(mount, entity, digits);
    assert ParsePath(mount, mount + ("/" + entity)) == ParseRest("/" + entity) by { CutPath(mount, "/" + entity); }
  }

  lemma CutPath(mount: string, rest: string)
    ensures ParsePath(mount, mount + rest) == ParseRest(rest)
  {
    CutFront(mount, rest);
    hide ParseRest;
  }

  /** A path that does not parse is of neither form, and an id is out of range exactly
      when its digits exceed an int. */
  lemma OtherPaths(mount: string, path: string, entity: string, digits: string)
    requires IsEntity(entity) && IsDigits(digits)
    ensures ParsePath(mount, path) == NoMatch ==>
              path != mount + ("/" + entity) && path != mount + ("/" + entity + "/" + digits)
    ensures ParsePath(mount, path) == IdOutOfRange && path == mount + ("/" + entity + "/" + digits) ==>
              Stoi(digits) == None
  {
    ParseBuiltPath(mount, entity, 0);
    ParseDigitsPath(mount, entity, digits);
    hide ParsePath, Stoi;
  }

  lemma CutFront(a: string, b: string)
    ensures a <= a + b && (a + b)[|a|..] == b
  {
  }

  lemma ParseEntity(entity: string)
    requires IsEntity(entity)
    ensures ParseRest("/" + entity) == Target(entity, None)
  {
  }

  /** A path with a target is built from the mount, an entity without slashes and, if
      there is an id, the id in digits. */
  lemma ParsedPathIsBuilt(mount: string, path: string)
    requires ParsePath(mount, path).Target?
    ensures var t := ParsePath(mount, path);
            && IsEntity(t.entity)
            && (t.id == None ==> path == mount + ("/" + t.entity))
            && (t.id.Some? ==> exists digits ::
                  IsDigits(digits) && Stoi(digits) == t.id &&
                  path == mount + ("/" + t.entity + "/" + digits))
  {
    assert path == mount + path[|mount|..];
    ParsedRestIsBuilt(path[|mount|..]);
    hide ParseRest, Stoi, IsDigits, IsEntity;
  }

  lemma ParsedRestIsBuilt(rest: string)
    requires ParseRest(rest).Target?
    ensures var t := ParseRest(rest);
            && IsEntity(t.entity)
            && (t.id == None ==> rest == "/" + t.entity)
            && (t.id.Some? ==> exists digits ::
                  IsDigits(digits) && Stoi(digits) == t.id && rest == "/" + t.entity + "/" + digits)
  {
    var n := Span(rest[1..], NotSlash);
    var entity, tail := rest[1..n + 1], rest[n + 1..];
    RebuildRest(rest, n);
    assert ParseRest(rest) == ParseTail(entity, tail);
    TailIsId(entity, tail);
    hide ParseRest, ParseTail, Span, Stoi, IsDigits, IsEntity;
    if tail == [] {
      assert "/" + entity + tail == "/" + entity;
    } else {
      assert tail == "/" + tail[1..];
      assert "/" + entity + ("/" + tail[1..]) == "/" + entity + "/" + tail[1..];
    }
  }

  lemma TailIsId(entity: string, tail: string)
    requires (tail == [] || tail[0] == '/') && ParseTail(entity, tail).Target?
    ensures var t := ParseTail(entity, tail);
            && t.entity == entity && (t.id == None <==> tail == [])
            && (tail != [] ==> IsDigits(tail[1..]) && Stoi(tail[1..]) == t.id)
  {
    hide Stoi;
    assert forall i :: 0 <= i < |tail| - 1 ==> tail[1..][i] in tail[1..];
  }

  lemma RebuildRest(rest: string, n: nat)
    requires rest != [] && rest[0] == '/' && n == Span(rest[1..], NotSlash)
    ensures rest == "/" + rest[1..n + 1] + rest[n + 1..]
    ensures n > 0 ==> IsEntity(rest[1..n + 1])
    ensures rest[n + 1..] == [] || rest[n + 1..][0] == '/'
  {
    assert forall i :: 0 <= i < n ==> rest[1..][i] == rest[1..n + 1][i];
  }

  lemma ParseBuiltRest(entity: string, tail: string)
    requires IsEntity(entity) && (tail == [] || tail[0] == '/')
    ensures ParseRest("/" + entity + tail) == ParseTail(entity, tail)
  {
    var rest := "/" + entity + tail;
    assert rest[1..] == entity + tail;
    SpanIs(entity + tail, NotSlash, |entity|);
    hide ParseTail;
    assert rest[1..|entity| + 1] == entity && rest[|entity| + 1..] == tail;
  }

  // ----- Requests -----

  /** Responses by their status and what their body says. */
  datatype Reply =
    | NotFoundReply
    | BadRequest
    | InvalidJson
    | Created(id: int)
    | Content(data: string)
    | Listing(ids: seq<int>)
    | Updated(id: int)
    | Deleted
    | MissingEntity
    | Failed
    | Threw

  function Status(r: Reply): int
    requires !r.Threw?
  {
    match r
    case NotFoundReply | MissingEntity => 404
    case BadRequest | InvalidJson => 400
    case Created(_) => 201
    case Content(_) | Listing(_) | Updated(_) | Deleted => 200
    case Failed => 500
  }

  datatype ApiRequest = ApiRequest(verb: string, path: string, body: string)

  /** The table after a request, told from the reply. */
  function AfterReply(s: Shelves, t: Target, req: ApiRequest, r: Reply): Shelves {
    if t.Target? && r.Created? then Put(s, t.entity, r.id, req.body)
    else if t.Target? && t.id.Some? && r.Updated? then Put(s, t.entity, r.id, req.body)
    else if t.Target? && t.id.Some? && r.Deleted? then Drop(s, t.entity, t.id.value)
    else s
  }

  /** `id` is one more than the largest id in use, 0 when there is none above -1. */
  ghost predicate IsNextId(shelf: Shelf, id: int) {
    && id >= 0
    && (forall i :: i in shelf ==> i < id)
    && (id > 0 ==> id - 1 in shelf)
  }

  /** The reply to each verb. */
  ghost predicate IsReply(s: Shelves, t: Target, req: ApiRequest, validJson: bool, r: Reply) {
    match t
    case NoMatch => r == NotFoundReply
    case IdOutOfRange => r == Threw
    case Target(entity, None) =>
      if req.verb == "POST" then r.Created? && IsNextId(ShelfOf(s, entity), r.id)
      else if req.verb == "GET" then
        (if entity in s then r.Listing? && IsListing(r.ids, s[entity].Keys) else r == NotFoundReply)
      else r == BadRequest
    case Target(entity, Some(id)) =>
      if req.verb == "GET" then
        r == (match Get(s, entity, id) case None => NotFoundReply case Some(data) => Content(data))
      else if req.verb == "PUT" then r == if validJson then Updated(id) else InvalidJson
      else if req.verb == "DELETE" then r == if Get(s, entity, id).Some? then Deleted else MissingEntity
      else r == BadRequest
  }

  /** The entity is a directory of its own, and a POST finds room for one more int. */
  predicate CanServe(s: Shelves, t: Target, req: ApiRequest) {
    t.Target? ==>
      && t.entity != "." && t.entity != ".."
      && (req.verb == "POST" && t.id == None ==> INT_MAX !in ShelfOf(s, t.entity))
  }

  class ApiHandler {
    const mount: string
    const store: DiskFileStore

    constructor (mount: string, store: DiskFileStore)
      ensures this.mount == mount && this.store == store
    {
      this.mount, this.store := mount, store;
    }

    method HandleRequest(req: ApiRequest, isJson: string -> bool) returns (status: int, r: Reply)
      requires AllCanonical(store.folders)
      requires CanServe(OnDisk(store.folders), ParsePath(mount, req.path), req)
      modifies store
      ensures AllCanonical(store.folders)
      ensures !r.Threw? ==> status == Status(r)
      ensures var t := ParsePath(mount, req.path);
              && IsReply(OnDisk(old(store.folders)), t, req, isJson(req.body), r)
              && OnDisk(store.folders) == AfterReply(OnDisk(old(store.folders)), t, req, r)
    {
      hide OnDisk, AllCanonical, ParsePath, Get, Put, Drop, IsListing;
      var target := ParsePath(mount, req.path);
      if target.IdOutOfRange? {
        return 0, Threw;
      }
      if target.NoMatch? {
        return 404, NotFoundReply;
      }
      var entity, id := target.entity, target.id;
      TargetIsPlain(mount, req.path);
      if req.verb == "POST" && id == None {
        var newId := NextBlobId(store, entity);
        var ok := WriteBlob(store, entity, newId, req.body);
        if !ok {
          return 500, Failed;
        }
        return 201, Created(newId);
      }
      if req.verb == "GET" && id.Some? {
        var data := ReadBlob(store, entity, id.value);
        if data == None {
          return 404, NotFoundReply;
        }
        return 200, Content(data.value);
      }
      if req.verb == "GET" && id == None {
        var filenames := ListBlobs(store, entity);
        if filenames == None {
          return 404, NotFoundReply;
        }
        return 200, Listing(filenames.value);
      }
      if req.verb == "PUT" && id.Some? {
        if !isJson(req.body) {
          return 400, InvalidJson;
        }
        var ok := WriteBlob(store, entity, id.value, req.body);
        if !ok {
          return 500, Failed;
        }
        return 200, Updated(id.value);
      }
      if req.verb == "DELETE" && id.Some? {
        var data := ReadBlob(store, entity, id.value);
        if data == None {
          return 404, MissingEntity;
        }
        var ok := RemoveBlob(store, entity, id.value);
        if !ok {
          return 500, Failed;
        }
        return 200, Deleted;
      }
      return 400, BadRequest;
    }
  }

  lemma TargetIsPlain(mount: string, path: string)
    requires ParsePath(mount, path).Target?
    ensures var e := ParsePath(mount, path).entity; e != "." && e != ".." ==> IsPlainName(e)
  {
    ParsedPathIsBuilt(mount, path);
  }

  /** next_id on a canonical store. */
  method NextBlobId(store: DiskFileStore, entity: string) returns (id: int)
    requires AllCanonical(store.folders)
    ensures IsNextId(ShelfOf(OnDisk(store.folders), entity), id)
    ensures INT_MAX !in ShelfOf(OnDisk(store.folders), entity) ==> IsInt(id)
  {
    hide Stoi, ToDecimal, Canonical, OnDisk, ShelfIn;
    id := store.NextId(entity);
    ghost var folders := store.folders;
    FoldersAreEntities(folders);
    if entity in folders {
      IdsAndNames(folders[entity]);
    }
  }

  /** The ids of a canonical directory are the numbers its names start with. */
  lemma IdsAndNames(d: Directory)
    requires Canonical(d)
    ensures forall i :: i in ShelfIn(d) ==> IsInt(i) && IsFileIn(d, ToDecimal(i)) && Stoi(ToDecimal(i)) == Some(i)
    ensures forall name :: name in d ==> Stoi(name).Some? && Stoi(name).value in ShelfIn(d)
  {
    forall i | i in ShelfIn(d) ensures IsInt(i) && IsFileIn(d, ToDecimal(i)) && Stoi(ToDecimal(i)) == Some(i) {
      NameOfId(d, i);
    }
    forall name | name in d ensures Stoi(name).Some? && Stoi(name).value in ShelfIn(d) {
      IdOfName(d, name);
    }
  }

  lemma NameOfId(d: Directory, i: int)
    requires i in ShelfIn(d)
    ensures ToDecimal(i) in d && Stoi(ToDecimal(i)) == Some(i)
  {
    StoiOfDecimal(i, "");
    assert ToDecimal(i) + "" == ToDecimal(i);
  }

  lemma IdOfName(d: Directory, name: string)
    requires Canonical(d) && name in d
    ensures Stoi(name).Some? && Stoi(name).value in ShelfIn(d)
  {
    hide ToDecimal, Stoi;
    var i :| IsInt(i) && ToDecimal(i) == name;
    NameOfId(d, i);
  }
}

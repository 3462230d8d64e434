/** The store of blobs keyed by entity and id, kept in decimal file names on disk or
    in maps in memory, and the map of maps that both of them are. */
module Shelves {
  import opened Wrappers
  import opened Sorting

  type Shelf = map<int, string>
  type Shelves = map<string, Shelf>

  function ShelfOf(s: Shelves, entity: string): Shelf {
    if entity in s then s[entity] else map[]
  }

  function Put(s: Shelves, entity: string, id: int, data: string): Shelves {
    s[entity := ShelfOf(s, entity)[id := data]]
  }

  function Get(s: Shelves, entity: string, id: int): Option<string> {
    if entity in s && id in s[entity] then Some(s[entity][id]) else None
  }

  function Drop(s: Shelves, entity: string, id: int): Shelves {
    if entity in s then s[entity := s[entity] - {id}] else s
  }

  /** The answer to read_directory: absent for an unknown entity, else its ids ascending. */
  ghost predicate IsList(s: Shelves, entity: string, answer: Option<seq<int>>) {
    match answer
    case None => entity !in s
    case Some(ids) => entity in s && IsListing(ids, s[entity].Keys)
  }

  // ----- Calls, and what a store must answer -----

  datatype Call =
    | Write(entity: string, id: int, data: string)
    | Read(entity: string, id: int)
    | Delete(entity: string, id: int)
    | ReadDirectory(entity: string)

  datatype Answer = Done(ok: bool) | Blob(data: Option<string>) | Ids(ids: Option<seq<int>>)

  function After(s: Shelves, c: Call): Shelves {
    match c
    case Write(entity, id, data) => Put(s, entity, id, data)
    case Delete(entity, id) => Drop(s, entity, id)
    case _ => s
  }

  ghost predicate IsAnswer(s: Shelves, c: Call, a: Answer) {
    match c
    case Write(_, _, _) => a == Done(true)
    case Read(entity, id) => a == Blob(Get(s, entity, id))
    case Delete(entity, id) => a == Done(Get(s, entity, id).Some?)
    case ReadDirectory(entity) => a.Ids? && IsList(s, entity, a.ids)
  }

  // ----- Answers told from the calls alone -----

  /** The data written last under this entity and id, unless it was deleted since. */
  function LastWritten(calls: seq<Call>, entity: string, id: int): Option<string> {
    if calls == [] then None
    else
      var n := |calls| - 1;
      match calls[n]
      case Write(e, i, data) => if e == entity && i == id then Some(data) else LastWritten(calls[..n], entity, id)
      case Delete(e, i) => if e == entity && i == id then None else LastWritten(calls[..n], entity, id)
      case _ => LastWritten(calls[..n], entity, id)
  }

  predicate EverWritten(calls: seq<Call>, entity: string) {
    exists k :: 0 <= k < |calls| && calls[k].Write? && calls[k].entity == entity
  }

  /** The answer to a call after the calls `before`: an entity is known from the first write
      on, also when all its entries are deleted. */
  ghost predicate AnswersCall(before: seq<Call>, c: Call, a: Answer) {
    match c
    case Write(_, _, _) => a == Done(true)
    case Read(entity, id) => a == Blob(LastWritten(before, entity, id))
    case Delete(entity, id) => a == Done(LastWritten(before, entity, id).Some?)
    case ReadDirectory(entity) =>
      && a.Ids? && (a.ids.Some? <==> EverWritten(before, entity))
      && (a.ids.Some? ==>
            && (forall i, j :: 0 <= i < j < |a.ids.value| ==> a.ids.value[i] < a.ids.value[j])
            && (forall id :: id in a.ids.value <==> LastWritten(before, entity, id).Some?))
  }

  ghost predicate AsTold(calls: seq<Call>, s: Shelves) {
    && (forall entity, id :: Get(s, entity, id) == LastWritten(calls, entity, id))
    && (forall entity :: entity in s <==> EverWritten(calls, entity))
  }

  lemma NextAsTold(calls: seq<Call>, s: Shelves, c: Call)
    requires AsTold(calls, s)
    ensures AsTold(calls + [c], After(s, c))
  {
    var all := calls + [c];
    assert all[..|calls|] == calls;
    forall entity ensures EverWritten(all, entity) <==> EverWritten(calls, entity) || (c.Write? && c.entity == entity) {
      if EverWritten(calls, entity) {
        var k :| 0 <= k < |calls| && calls[k].Write? && calls[k].entity == entity;
        assert all[k] == calls[k];
      }
      assert all[|calls|] == c;
    }
    forall entity, id ensures Get(After(s, c), entity, id) == LastWritten(all, entity, id) {
      assert Get(s, entity, id) == LastWritten(calls, entity, id);
    }
    forall entity ensures entity in After(s, c) <==> EverWritten(all, entity) {
      assert entity in s <==> EverWritten(calls, entity);
    }
  }

  lemma AnswerAsTold(calls: seq<Call>, s: Shelves, c: Call, a: Answer)
    requires AsTold(calls, s) && IsAnswer(s, c, a)
    ensures AnswersCall(calls, c, a)
  {
    hide LastWritten, EverWritten;
    if c.ReadDirectory? && a.ids.Some? {
      forall id ensures id in a.ids.value <==> LastWritten(calls, c.entity, id).Some? {
        assert id in a.ids.value <==> id in s[c.entity].Keys;
        assert Get(s, c.entity, id) == LastWritten(calls, c.entity, id);
      }
    }
  }

  lemma AnswerUnique(s: Shelves, c: Call, a: Answer, b: Answer)
    requires IsAnswer(s, c, a) && IsAnswer(s, c, b)
    ensures a == b
  {
    if c.ReadDirectory? && c.entity in s {
      ListingUnique(a.ids.value, b.ids.value, s[c.entity].Keys);
    }
  }
}

module FileStores {
  import opened Wrappers
  import opened Text
  import opened Sorting
  import opened Files
  import opened Shelves

  /** The numbers at the front of the names that have one, in the order of the names. */
  function Numbers(order: seq<string>): seq<int> {
    if order == [] then []
    else
      var n := |order| - 1;
      Numbers(order[..n]) + (match Stoi(order[n]) case None => [] case Some(i) => [i])
  }

  /** `folders` are the directories below the root by entity name, "" being the root
      itself, which is only looked at in a store that nobody writes to. */
  class DiskFileStore {
    var folders: map<string, Directory>

    constructor ()
      ensures folders == map[]
    {
      folders := map[];
    }

    /** One more than the largest number at the front of a file name, 0 without any. */
    method NextId(entity: string) returns (id: int)
      ensures entity !in folders ==> id == 0
      ensures entity in folders ==>
                && id >= 0
                && (forall name :: IsFileIn(folders[entity], name) && Stoi(name).Some? ==> Stoi(name).value < id)
                && (id > 0 ==> exists name :: IsFileIn(folders[entity], name) && Stoi(name) == Some(id - 1))
    {
      if entity !in folders {
        return 0;
      }
      var maxId := -1;
      var dir := folders[entity];
      var order := Enumerate(dir.Keys);
      for k := 0 to |order|
        invariant maxId >= -1
        invariant forall j :: 0 <= j < k && IsFileIn(dir, order[j]) && Stoi(order[j]).Some? ==>
                    Stoi(order[j]).value <= maxId
        invariant maxId >= 0 ==> exists j :: 0 <= j < k && IsFileIn(dir, order[j]) && Stoi(order[j]) == Some(maxId)
      {
        assert order[k] in order;
        if dir[order[k]].Folder? {
          continue;
        }
        match Stoi(order[k])
        case None =>
        case Some(i) => maxId := if i > maxId then i else maxId;
      }
      forall name | IsFileIn(dir, name) && Stoi(name).Some? ensures Stoi(name).value <= maxId {
        assert name in order;
      }
      id := maxId + 1;
    }

    /** A folder with the name of the file cannot be opened for writing; by then the
        directory of the entity has been made. */
    method Write(entity: string, id: int, data: string) returns (ok: bool)
      requires IsPlainName(entity)
      modifies this
      ensures var d, name := DirectoryOf(old(folders), entity), ToDecimal(id);
              && ok == !IsFolderIn(d, name)
              && folders == old(folders)[entity := if ok then d[name := File(data)] else d]
    {
      var dir := if entity in folders then folders[entity] else map[];
      folders := folders[entity := dir];
      var file := ToDecimal(id);
      if file in dir && dir[file].Folder? {
        return false;
      }
      folders := folders[entity := dir[file := File(data)]];
      ok := true;
    }

    method Read(entity: string, id: int) returns (data: Option<string>)
      ensures data == ContentAt(DirectoryOf(folders, entity), ToDecimal(id))
    {
      if entity !in folders || ToDecimal(id) !in folders[entity] {
        return None;
      }
      match folders[entity][ToDecimal(id)]
      case File(content) => data := Some(content);
      case Folder(_) => data := Some("");
    }

    /** A folder is removed only when it is empty. */
    method Remove(entity: string, id: int) returns (ok: bool)
      modifies this
      ensures var d, name := DirectoryOf(old(folders), entity), ToDecimal(id);
              && ok == (name in d && d[name] != Folder(false))
              && folders == if ok then old(folders)[entity := d - {name}] else old(folders)
    {
      if entity !in folders || ToDecimal(id) !in folders[entity] {
        return false;
      }
      if folders[entity][ToDecimal(id)] == Folder(false) {
        return false;
      }
      folders := folders[entity := folders[entity] - {ToDecimal(id)}];
      ok := true;
    }

    /** `order` is the order in which the directory happened to be walked. */
    method ReadDirectory(entity: string) returns (filenames: Option<seq<int>>, ghost order: seq<string>)
      ensures filenames.Some? == (entity in folders)
      ensures filenames.Some? ==>
                && Distinct(order) && (forall n :: n in order <==> n in folders[entity])
                && SortedBy(filenames.value, IntLeq)
                && multiset(filenames.value) == multiset(Numbers(order))
    {
      order := [];
      if entity !in folders {
        return None, order;
      }
      var names := Enumerate(folders[entity].Keys);
      order := names;
      var ids: seq<int> := [];
      for k := 0 to |names|
        invariant ids == Numbers(names[..k])
      {
        assert names[..k + 1][..k] == names[..k];
        match Stoi(names[k])
        case None =>
        case Some(i) => ids := ids + [i];
      }
      assert names[..|names|] == names;
      IntLeqIsTotal();
      ids := Sort(ids, IntLeq);
      filenames := Some(ids);
    }
  }

  function DirectoryOf(folders: map<string, Directory>, entity: string): Directory {
    if entity in folders then folders[entity] else map[]
  }

  class FakeFileStore {
    var nextIds: map<string, int>
    var store: Shelves

    constructor ()
      ensures nextIds == map[] && store == map[]
    {
      nextIds, store := map[], map[];
    }

    method NextId(entity: string) returns (id: int)
      modifies this
      ensures store == old(store)
      ensures id == if entity in old(nextIds) then old(nextIds)[entity] else 0
      ensures nextIds == old(nextIds)[entity := id + 1]
    {
      id := if entity in nextIds then nextIds[entity] else 0;
      nextIds := nextIds[entity := id + 1];
    }

    method Write(entity: string, id: int, data: string) returns (ok: bool)
      modifies this
      ensures ok && store == Put(old(store), entity, id, data) && nextIds == old(nextIds)
    {
      var shelf := if entity in store then store[entity] else map[];
      store := store[entity := shelf[id := data]];
      ok := true;
    }

    method Read(entity: string, id: int) returns (data: Option<string>)
      ensures data == Get(store, entity, id)
    {
      if entity !in store || id !in store[entity] {
        return None;
      }
      data := Some(store[entity][id]);
    }

    method Remove(entity: string, id: int) returns (ok: bool)
      modifies this
      ensures ok == Get(old(store), entity, id).Some?
      ensures store == Drop(old(store), entity, id) && nextIds == old(nextIds)
    {
      if entity !in store || id !in store[entity] {
        if entity in store {
          assert store[entity] - {id} == store[entity];
          assert store[entity := store[entity]] == store;
        }
        return false;
      }
      store := store[entity := store[entity] - {id}];
      ok := true;
    }

    /** Iteration over a std::map is in ascending key order. */
    method ReadDirectory(entity: string) returns (filenames: Option<seq<int>>)
      ensures IsList(store, entity, filenames)
    {
      if entity !in store {
        return None;
      }
      var left := store[entity].Keys;
      var ids: seq<int> := [];
      while left != {}
        invariant left <= store[entity].Keys
        invariant forall k :: k in store[entity].Keys && k !in left ==> k in ids
        invariant forall i :: 0 <= i < |ids| ==> ids[i] in store[entity].Keys && forall k :: k in left ==> ids[i] < k
        invariant forall i, j :: 0 <= i < j < |ids| ==> ids[i] < ids[j]
        decreases left
      {
        ghost var least := Least(left);
        var id :| id in left && forall k :: k in left ==> id <= k;
        left := left - {id};
        ids := ids + [id];
      }
      filenames := Some(ids);
    }
  }

  lemma {:induction false} Least(s: set<int>) returns (m: int)
    requires s != {}
    ensures m in s && forall k :: k in s ==> m <= k
    decreases s
  {
    var y := Pick(s);
    var rest := s - {y};
    if rest == {} {
      assert s == {y};
      m := y;
    } else {
      m := Least(rest);
      m := if m <= y then m else y;
      forall k | k in s ensures m <= k {
        assert k == y || k in rest;
      }
    }
  }

  // ----- The disk is the map of maps written in decimal -----

  /** Only regular files, each named by the decimal form of an int. */
  ghost predicate Canonical(d: Directory) {
    forall name :: name in d ==> d[name].File? && exists i :: IsInt(i) && ToDecimal(i) == name
  }

  ghost predicate AllCanonical(folders: map<string, Directory>) {
    forall e :: e in folders ==> Canonical(folders[e])
  }

  ghost function ShelfIn(d: Directory): Shelf {
    map i | INT_MIN <= i <= INT_MAX && IsFileIn(d, ToDecimal(i)) :: d[ToDecimal(i)].content
  }

  ghost function OnDisk(folders: map<string, Directory>): Shelves {
    map e | e in folders :: ShelfIn(folders[e])
  }

  lemma ChangeFolder(folders: map<string, Directory>, entity: string, d: Directory)
    ensures OnDisk(folders[entity := d]) == OnDisk(folders)[entity := ShelfIn(d)]
    ensures ShelfIn(DirectoryOf(folders, entity)) == ShelfOf(OnDisk(folders), entity)
  {
    hide ToDecimal;
  }

  lemma FileIsBlob(folders: map<string, Directory>, entity: string, id: int)
    requires AllCanonical(folders) && IsInt(id)
    ensures ContentAt(DirectoryOf(folders, entity), ToDecimal(id)) == Get(OnDisk(folders), entity, id)
  {
    hide ToDecimal;
  }

  lemma OnlyOneId(id: int)
    requires IsInt(id)
    ensures forall i :: IsInt(i) && ToDecimal(i) == ToDecimal(id) ==> i == id
  {
    forall i | IsInt(i) && ToDecimal(i) == ToDecimal(id) ensures i == id {
      DecimalInjective(i, id, "");
    }
  }

  lemma WriteFile(d: Directory, id: int, data: string)
    requires Canonical(d) && IsInt(id)
    ensures Canonical(d[ToDecimal(id) := File(data)])
    ensures ShelfIn(d[ToDecimal(id) := File(data)]) == ShelfIn(d)[id := data]
  {
    WriteKeepsCanonical(d, id, data);
    OnlyOneId(id);
    hide ToDecimal, Canonical;
    var d' := d[ToDecimal(id) := File(data)];
    forall i | IsInt(i) && i != id
      ensures ToDecimal(i) in d' <==> ToDecimal(i) in d
      ensures ToDecimal(i) in d ==> d'[ToDecimal(i)] == d[ToDecimal(i)]
    {
      assert ToDecimal(i) != ToDecimal(id);
    }
  }

  lemma WriteKeepsCanonical(d: Directory, id: int, data: string)
    requires Canonical(d) && IsInt(id)
    ensures Canonical(d[ToDecimal(id) := File(data)])
  {
    hide ToDecimal;
  }

  lemma RemoveFile(d: Directory, id: int)
    requires Canonical(d) && IsInt(id)
    ensures Canonical(d - {ToDecimal(id)})
    ensures ShelfIn(d - {ToDecimal(id)}) == ShelfIn(d) - {id}
  {
    OnlyOneId(id);
    hide ToDecimal;
    forall i | IsInt(i) && i != id ensures ToDecimal(i) in d - {ToDecimal(id)} <==> ToDecimal(i) in d {
      assert ToDecimal(i) != ToDecimal(id);
    }
  }

  // ----- Walking a canonical directory lists its ids -----

  /** Names numbered differently. */
  ghost predicate NumberedApart(order: seq<string>) {
    && (forall k :: 0 <= k < |order| ==> Stoi(order[k]).Some?)
    && (forall i, j :: 0 <= i < j < |order| ==> Stoi(order[i]) != Stoi(order[j]))
  }

  lemma {:induction false} NumbersOneByOne(order: seq<string>)
    requires forall k :: 0 <= k < |order| ==> Stoi(order[k]).Some?
    ensures |Numbers(order)| == |order|
    ensures forall k :: 0 <= k < |order| ==> Numbers(order)[k] == Stoi(order[k]).value
    decreases |order|
  {
    hide Stoi;
    if order != [] {
      var n := |order| - 1;
      NumbersOneByOne(order[..n]);
      assert Numbers(order) == Numbers(order[..n]) + [Stoi(order[n]).value];
    }
  }

  lemma CanonicalNumberedApart(d: Directory, order: seq<string>)
    requires Canonical(d) && Distinct(order) && forall n :: n in order ==> n in d
    ensures NumberedApart(order)
    ensures forall k :: 0 <= k < |order| ==> IsInt(Stoi(order[k]).value) && ToDecimal(Stoi(order[k]).value) == order[k]
  {
    hide Stoi, ToDecimal;
    forall k | 0 <= k < |order|
      ensures Stoi(order[k]).Some? && IsInt(Stoi(order[k]).value) && ToDecimal(Stoi(order[k]).value) == order[k]
    {
      assert order[k] in order;
      var i :| IsInt(i) && ToDecimal(i) == order[k];
      StoiOfDecimal(i, "");
      assert order[k] + "" == order[k];
    }
  }

  /** A sorted walk of a canonical directory is the list of its ids, whatever the order. */
  lemma WalkLists(d: Directory, order: seq<string>, ids: seq<int>)
    requires Canonical(d) && Distinct(order) && forall n :: n in order <==> n in d
    requires SortedBy(ids, IntLeq) && multiset(ids) == multiset(Numbers(order))
    ensures IsListing(ids, ShelfIn(d).Keys)
  {
    hide Stoi, ToDecimal, Numbers, IsListing;
    CanonicalNumberedApart(d, order);
    NumbersOneByOne(order);
    var numbers := Numbers(order);
    SortedDistinctIsListing(ids, numbers);
    forall i ensures i in numbers <==> i in ShelfIn(d) {
      if i in ShelfIn(d) {
        var k :| 0 <= k < |order| && order[k] == ToDecimal(i);
        assert ToDecimal(numbers[k]) == ToDecimal(i) && IsInt(numbers[k]) && IsInt(i);
        assert numbers[k] == i by {
          assert ToDecimal(i) + "" == ToDecimal(i);
          DecimalInjective(numbers[k], i, "");
        }
      }
    }
    assert (set x | x in numbers) == ShelfIn(d).Keys;
  }

  // ----- Both stores answer alike -----

  /** A call with a plain entity name and an int id. */
  predicate PlainCall(c: Call) {
    IsPlainName(c.entity) && (c.ReadDirectory? || IsInt(c.id))
  }

  // The disk is that map of maps for plain entity names: any other name reaches into the
  // directory of another entity, or of the root.

  method WriteBlob(disk: DiskFileStore, entity: string, id: int, data: string) returns (ok: bool)
    requires IsPlainName(entity)
    requires AllCanonical(disk.folders) && IsInt(id)
    modifies disk
    ensures ok && AllCanonical(disk.folders)
    ensures OnDisk(disk.folders) == Put(OnDisk(old(disk.folders)), entity, id, data)
  {
    ghost var folders, d := disk.folders, DirectoryOf(disk.folders, entity);
    EmptyIsCanonical();
    WriteFile(d, id, data);
    ChangeFolder(folders, entity, d);
    ChangeFolder(folders, entity, d[ToDecimal(id) := File(data)]);
    hide OnDisk, ShelfIn, Canonical, ToDecimal;
    ok := disk.Write(entity, id, data);
  }

  method ReadBlob(disk: DiskFileStore, entity: string, id: int) returns (data: Option<string>)
    requires IsPlainName(entity)
    requires AllCanonical(disk.folders) && IsInt(id)
    ensures data == Get(OnDisk(disk.folders), entity, id)
  {
    FileIsBlob(disk.folders, entity, id);
    hide OnDisk, ToDecimal, ContentAt;
    data := disk.Read(entity, id);
  }

  method RemoveBlob(disk: DiskFileStore, entity: string, id: int) returns (ok: bool)
    requires IsPlainName(entity)
    requires AllCanonical(disk.folders) && IsInt(id)
    modifies disk
    ensures ok == Get(OnDisk(old(disk.folders)), entity, id).Some? && AllCanonical(disk.folders)
    ensures OnDisk(disk.folders) == Drop(OnDisk(old(disk.folders)), entity, id)
  {
    ghost var folders, d := disk.folders, DirectoryOf(disk.folders, entity);
    EmptyIsCanonical();
    RemoveFile(d, id);
    ChangeFolder(folders, entity, d - {ToDecimal(id)});
    FileIsBlob(folders, entity, id);
    FoldersAreEntities(folders);
    NothingToDrop(OnDisk(folders), entity, id);
    hide OnDisk, ShelfIn, Canonical, ToDecimal;
    ok := disk.Remove(entity, id);
  }

  lemma NothingToDrop(s: Shelves, entity: string, id: int)
    ensures Get(s, entity, id) == None ==> Drop(s, entity, id) == s
  {
    if entity in s && id !in s[entity] {
      assert s[entity] - {id} == s[entity];
    }
  }

  method ListBlobs(disk: DiskFileStore, entity: string) returns (ids: Option<seq<int>>)
    requires IsPlainName(entity)
    requires AllCanonical(disk.folders)
    ensures IsList(OnDisk(disk.folders), entity, ids)
  {
    FoldersAreEntities(disk.folders);
    ghost var order;
    ids, order := disk.ReadDirectory(entity);
    hide OnDisk, ShelfIn, Canonical, IsListing, Numbers;
    if ids.Some? {
      WalkLists(disk.folders[entity], order, ids.value);
    }
  }

  /** One call on the disk store. */
  method CallDisk(disk: DiskFileStore, c: Call) returns (a: Answer)
    requires AllCanonical(disk.folders) && PlainCall(c)
    modifies disk
    ensures AllCanonical(disk.folders)
    ensures IsAnswer(OnDisk(old(disk.folders)), c, a)
    ensures OnDisk(disk.folders) == After(OnDisk(old(disk.folders)), c)
  {
    hide OnDisk, AllCanonical, Put, Drop, Get, IsList;
    match c
    case Write(entity, id, data) =>
      var ok := WriteBlob(disk, entity, id, data);
      a := Done(ok);
    case Read(entity, id) =>
      var data := ReadBlob(disk, entity, id);
      a := Blob(data);
    case Delete(entity, id) =>
      var ok := RemoveBlob(disk, entity, id);
      a := Done(ok);
    case ReadDirectory(entity) =>
      var ids := ListBlobs(disk, entity);
      a := Ids(ids);
  }

  lemma EmptyIsCanonical()
    ensures Canonical(map[])
  {
  }

  lemma FoldersAreEntities(folders: map<string, Directory>)
    ensures OnDisk(folders).Keys == folders.Keys
    ensures forall e :: e in folders ==> OnDisk(folders)[e] == ShelfIn(folders[e])
  {
  }

  method CallFake(fake: FakeFileStore, c: Call) returns (a: Answer)
    modifies fake
    ensures IsAnswer(old(fake.store), c, a) && fake.store == After(old(fake.store), c)
  {
    match c
    case Write(entity, id, data) =>
      var ok := fake.Write(entity, id, data);
      a := Done(ok);
    case Read(entity, id) =>
      var data := fake.Read(entity, id);
      a := Blob(data);
    case Delete(entity, id) =>
      var ok := fake.Remove(entity, id);
      a := Done(ok);
    case ReadDirectory(entity) =>
      var ids := fake.ReadDirectory(entity);
      a := Ids(ids);
  }

  /** The same calls on a new store of each kind get the same answers, which are those
      that the earlier calls tell. */
  method RunBoth(calls: seq<Call>) returns (onDisk: seq<Answer>, inMemory: seq<Answer>)
    requires forall k :: 0 <= k < |calls| ==> PlainCall(calls[k])
    ensures onDisk == inMemory && |onDisk| == |calls|
    ensures forall k :: 0 <= k < |calls| ==> AnswersCall(calls[..k], calls[k], onDisk[k])
  {
    hide AnswersCall, AsTold, IsAnswer, After, OnDisk, AllCanonical, PlainCall;
    var disk := new DiskFileStore();
    var fake := new FakeFileStore();
    onDisk, inMemory := [], [];
    NewStores(disk.folders);
    for k := 0 to |calls|
      invariant fresh(disk) && fresh(fake)
      invariant AllCanonical(disk.folders) && OnDisk(disk.folders) == fake.store
      invariant onDisk == inMemory && |onDisk| == k && AsTold(calls[..k], fake.store)
      invariant forall j :: 0 <= j < k ==> AnswersCall(calls[..j], calls[j], onDisk[j])
    {
      ghost var s := fake.store;
      NextAsTold(calls[..k], s, calls[k]);
      assert calls[..k + 1] == calls[..k] + [calls[k]];
      var a := CallDisk(disk, calls[k]);
      var b := CallFake(fake, calls[k]);
      AnswerUnique(s, calls[k], a, b);
      AnswerAsTold(calls[..k], s, calls[k], a);
      onDisk := onDisk + [a];
      inMemory := inMemory + [b];
    }
  }

  lemma NewStores(folders: map<string, Directory>)
    requires folders == map[]
    ensures AllCanonical(folders) && OnDisk(folders) == map[] && AsTold([], map[])
  {
  }
}

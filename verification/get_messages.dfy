/** The handler that lists messages, which reads the numbered files its own way. */
module GetMessages {
  import opened Wrappers
  import opened Text
  import opened Sorting
  import opened Files
  import opened FileStores
  import opened MessageFiles

  /** A JSON value: that of a message, or any other with its "timestamp" if that is a
      string. */
  datatype Doc = MessageDoc(msg: Message) | OtherDoc(json: string, stamp: Option<string>)

  function StampOf(d: Doc): Option<string> {
    match d
    case MessageDoc(m) => Some(m.timestamp)
    case OtherDoc(_, stamp) => stamp
  }

  /** What read_directory may return for a directory. */
  ghost predicate IsWalk(d: Directory, order: seq<string>, ids: seq<int>) {
    && Distinct(order) && (forall n :: n in order <==> n in d)
    && SortedBy(ids, IntLeq) && multiset(ids) == multiset(Numbers(order))
  }

  /** What is read for `<id>`, or else for `<id>.json`. */
  function ReadMessageFile(d: Directory, id: int): Option<string> {
    if ToDecimal(id) in d then ContentAt(d, ToDecimal(id)) else ContentAt(d, NameOf(id))
  }

  function ReadDoc(d: Directory, id: int, parse: string -> Option<Doc>): Option<Doc> {
    match ReadMessageFile(d, id) case None => None case Some(content) => parse(content)
  }

  /** The values of the files that are there and parse. */
  function ReadAll(d: Directory, ids: seq<int>, parse: string -> Option<Doc>): seq<Doc> {
    if ids == [] then []
    else
      var n := |ids| - 1;
      ReadAll(d, ids[..n], parse) + match ReadDoc(d, ids[n], parse) case None => [] case Some(doc) => [doc]
  }

  /** What a number's text parses to: that of `<id>` if there is such a name, else that of
      `<id>.json`; a folder reads as empty. */
  function DocOf(d: Directory, id: int, parse: string -> Option<Doc>): Option<Doc> {
    var name := if ToDecimal(id) in d then ToDecimal(id) else ToDecimal(id) + ".json";
    if name !in d then None
    else parse(match d[name] case File(content) => content case Folder(_) => "")
  }

  function DocOfEach(d: Directory, ids: seq<int>, parse: string -> Option<Doc>): seq<Option<Doc>> {
    seq(|ids|, i requires 0 <= i < |ids| => DocOf(d, ids[i], parse))
  }

  lemma ReadDocIs(d: Directory, id: int, parse: string -> Option<Doc>)
    ensures ReadDoc(d, id, parse) == DocOf(d, id, parse)
  {
    hide ToDecimal;
  }

  /** The values read are those of the numbers that have one, in order and one each. */
  lemma {:induction false} ReadAllAt(d: Directory, ids: seq<int>, parse: string -> Option<Doc>) returns (at: seq<nat>)
    ensures Picks(DocOfEach(d, ids, parse), ReadAll(d, ids, parse), at)
    decreases |ids|
  {
    hide Picks, ReadDoc, DocOf;
    if ids == [] {
      at := [];
      PickNothing<Doc>();
      assert DocOfEach(d, ids, parse) == [];
    } else {
      var n := |ids| - 1;
      at := ReadAllAt(d, ids[..n], parse);
      var doc := DocOf(d, ids[n], parse);
      ReadDocIs(d, ids[n], parse);
      var before := ReadAll(d, ids[..n], parse);
      PickOneMore(DocOfEach(d, ids[..n], parse), before, at, doc);
      assert DocOfEach(d, ids, parse) == DocOfEach(d, ids[..n], parse) + [doc];
      assert doc == None ==> ReadAll(d, ids, parse) == before;
      at := if doc.Some? then at + [n] else at;
    }
  }

  function StampText(d: Doc): string {
    match StampOf(d) case None => "" case Some(stamp) => stamp
  }

  predicate StampLeq(a: Doc, b: Doc) { StrLeq(StampText(a), StampText(b)) }

  lemma StampLeqIsTotal()
    ensures TotalPreorder(StampLeq)
  {
    forall x, y ensures StampLeq(x, y) || StampLeq(y, x) {
      StrLeqTotal(StampText(x), StampText(y));
    }
    forall x, y, z | StampLeq(x, y) && StampLeq(y, z) ensures StampLeq(x, z) {
      StrLeqTransitive(StampText(x), StampText(y), StampText(z));
    }
  }

  /** No value comes behind one with a later time stamp. */
  ghost predicate InOrder(docs: seq<Doc>) {
    forall i, j :: 0 <= i < j < |docs| && StampOf(docs[i]).Some? && StampOf(docs[j]).Some? ==>
      !ComesBefore(StampOf(docs[j]).value, StampOf(docs[i]).value)
  }

  lemma SortedInOrder(docs: seq<Doc>)
    requires SortedBy(docs, StampLeq)
    ensures InOrder(docs)
  {
    hide StrLeq, ComesBefore;
    forall i, j | 0 <= i < j < |docs| ensures !ComesBefore(StampText(docs[j]), StampText(docs[i])) {
      assert StampLeq(docs[i], docs[j]);
      StrLeqIff(StampText(docs[i]), StampText(docs[j]));
    }
  }

  predicate AllStamped(docs: seq<Doc>) {
    forall i :: 0 <= i < |docs| ==> StampOf(docs[i]).Some?
  }

  datatype ListReply = Refused(status: int) | Listed(status: int, docs: seq<Doc>) | Threw

  /** The reply to what was read: the sort compares every value once there are two, and
      comparing one without a string time stamp throws. */
  ghost predicate IsListReply(docs: seq<Doc>, reply: ListReply) {
    if |docs| >= 2 && !AllStamped(docs) then reply == Threw
    else reply.Listed? && reply.status == 200 && multiset(reply.docs) == multiset(docs) && InOrder(reply.docs)
  }

  class GetMessagesHandler {
    const path: string
    const store: DiskFileStore?

    constructor (path: string, store: DiskFileStore?)
      ensures this.path == path && this.store == store
    {
      this.path, this.store := path, store;
    }

    /** The message directory is the root of the store, entity "". */
    method HandleRequest(verb: string, requestPath: string, parse: string -> Option<Doc>)
      returns (reply: ListReply, ghost order: seq<string>, ghost ids: seq<int>)
      ensures store == null ==> reply == Refused(500)
      ensures store != null && verb != "GET" ==> reply == Refused(405)
      ensures store != null && verb == "GET" && requestPath != path ==> reply == Refused(404)
      ensures store != null && verb == "GET" && requestPath == path ==>
                if "" !in store.folders then reply == Refused(500)
                else IsWalk(store.folders[""], order, ids) &&
                     var docs := ReadAll(store.folders[""], ids, parse);
                     && IsListReply(docs, reply)
                     && (reply == Threw <==> |docs| >= 2 && exists i :: 0 <= i < |docs| && StampOf(docs[i]) == None)
    {
      hide Stoi, Numbers, IsListReply, ReadAll;
      order, ids := [], [];
      if store == null {
        return Refused(500), order, ids;
      }
      if verb != "GET" {
        return Refused(405), order, ids;
      }
      if requestPath != path {
        return Refused(404), order, ids;
      }
      var filenames;
      filenames, order := store.ReadDirectory("");
      if filenames == None {
        return Refused(500), order, ids;
      }
      ids := filenames.value;
      var docs := CollectDocs(store, filenames.value, parse);
      reply := SortDocs(docs);
    }
  }

  /** The loop over the listed numbers. */
  method CollectDocs(store: DiskFileStore, fileIds: seq<int>, parse: string -> Option<Doc>) returns (docs: seq<Doc>)
    requires "" in store.folders
    ensures docs == ReadAll(store.folders[""], fileIds, parse)
    ensures exists at :: Picks(DocOfEach(store.folders[""], fileIds, parse), docs, at)
  {
    hide ToDecimal, Picks, DocOfEach;
    docs := [];
    for k := 0 to |fileIds|
      invariant docs == ReadAll(store.folders[""], fileIds[..k], parse)
    {
      assert fileIds[..k + 1][..k] == fileIds[..k];
      var fileId := fileIds[k];
      var content := store.Read("", fileId);
      if content == None {
        var filename := ToDecimal(fileId) + ".json";
        if filename in store.folders[""] {
          content := ContentAt(store.folders[""], filename);
        }
      }
      if content == None {
        continue;
      }
      match parse(content.value)
      case None =>
      case Some(single) => docs := docs + [single];
    }
    assert fileIds[..|fileIds|] == fileIds;
    ghost var at := ReadAllAt(store.folders[""], fileIds, parse);
  }

  method SortDocs(docs: seq<Doc>) returns (reply: ListReply)
    ensures IsListReply(docs, reply)
    ensures reply == Threw <==> |docs| >= 2 && exists i :: 0 <= i < |docs| && StampOf(docs[i]) == None
    ensures reply != Threw ==> reply.Listed? && multiset(reply.docs) == multiset(docs) && InOrder(reply.docs)
  {
    if |docs| >= 2 && exists i :: 0 <= i < |docs| && StampOf(docs[i]) == None {
      return Threw;
    }
    StampLeqIsTotal();
    var sorted := Sort(docs, StampLeq);
    SortedInOrder(sorted);
    reply := Listed(200, sorted);
  }
}

/** What the listing shows of a directory that was just persisted, with whatever folders
    it holds: a folder counts by the number its name starts with. */
module MessageListing {
  import opened Wrappers
  import opened Text
  import opened Sorting
  import opened Files
  import opened FileStores
  import opened MessageFiles
  import opened MessagePosts
  import opened GetMessages

  /** The parser reads back what the encoder wrote, and the empty text is no JSON. */
  ghost predicate ReadsBack(parse: string -> Option<Doc>, encode: Message -> string) {
    (forall m :: parse(encode(m)) == Some(MessageDoc(m))) && parse("") == None
  }

  function DocsOf(msgs: seq<Message>): (docs: seq<Doc>)
    ensures |docs| == |msgs| && forall i :: 0 <= i < |msgs| ==> docs[i] == MessageDoc(msgs[i])
  {
    if msgs == [] then [] else DocsOf(msgs[..|msgs| - 1]) + [MessageDoc(msgs[|msgs| - 1])]
  }

  /** The condition on the folders: none has a name that starts with a number in 1..n. */
  ghost predicate NoFolderNumbered(base: Directory, n: nat) {
    forall name :: name in base && Stoi(name).Some? ==> Stoi(name).value !in OneTo(n)
  }

  // ----- Which messages are read -----

  /** No folder stands in front of message `id`, under either of its names. */
  predicate Shown(base: Directory, n: nat, id: int): (shown: bool)
    ensures shown ==> 1 <= id <= n
  {
    id in OneTo(n) && ToDecimal(id) !in base && NameOf(id) !in base
  }

  lemma NumberIsNoMessageName(i: int, j: int)
    ensures ToDecimal(i) != NameOf(j)
  {
    var s := NameOf(j);
    assert s[|ToDecimal(j)|] == '.' && '.' in s;
    NoDot(i);
  }

  lemma NoDot(i: int)
    ensures '.' !in ToDecimal(i)
  {
    var ds := Digits(if i < 0 then -i else i);
    assert AllDigits(ds) && !IsDigit('.');
  }

  /** One number of the listing is read as its message, or as nothing. */
  lemma ReadWritten(base: Directory, msgs: seq<Message>, encode: Message -> string,
                    parse: string -> Option<Doc>, id: int)
    requires OnlyFolders(base) && IsInt(|msgs|) && ReadsBack(parse, encode) && IsInt(id)
    ensures ReadDoc(Written(base, msgs, encode), id, parse) ==
            if Shown(base, |msgs|, id) then Some(MessageDoc(msgs[id - 1])) else None
  {
    var d := Written(base, msgs, encode);
    WrittenContains(base, msgs, encode);
    NumberNameNoFile(base, msgs, encode, id);
    MessageNameFile(base, msgs, encode, id);
    hide Written, NameOf, ToDecimal, OneTo;
  }

  lemma NumberNameNoFile(base: Directory, msgs: seq<Message>, encode: Message -> string, id: int)
    requires OnlyFolders(base) && IsInt(|msgs|)
    ensures ToDecimal(id) in Written(base, msgs, encode) ==>
              ToDecimal(id) in base && Written(base, msgs, encode)[ToDecimal(id)].Folder?
  {
    WrittenContains(base, msgs, encode);
    hide Written, NameOf, ToDecimal;
    forall i ensures ToDecimal(id) != NameOf(i) {
      NumberIsNoMessageName(id, i);
    }
  }

  lemma MessageNameFile(base: Directory, msgs: seq<Message>, encode: Message -> string, id: int)
    requires OnlyFolders(base) && IsInt(|msgs|) && IsInt(id)
    ensures IsFileIn(Written(base, msgs, encode), NameOf(id)) ==> id in OneTo(|msgs|) && NameOf(id) !in base
  {
    WrittenContains(base, msgs, encode);
    hide Written;
    if IsFileIn(Written(base, msgs, encode), NameOf(id)) {
      var i :| 1 <= i <= |msgs| && NameOf(id) == NameOf(i) && NameOf(i) !in base;
      DecimalInjective(id, i, ".json");
    }
  }

  /** The numbers of the listing whose message is read, in its order. */
  function Shows(base: Directory, n: nat, ids: seq<int>): (r: seq<int>)
    ensures forall k :: 0 <= k < |r| ==> r[k] in ids && 1 <= r[k] <= n
  {
    if ids == [] then []
    else
      var k := |ids| - 1;
      Shows(base, n, ids[..k]) + if Shown(base, n, ids[k]) then [ids[k]] else []
  }

  function DocsAt(msgs: seq<Message>, r: seq<int>): seq<Doc>
    requires forall k :: 0 <= k < |r| ==> 1 <= r[k] <= |msgs|
  {
    if r == [] then []
    else DocsAt(msgs, r[..|r| - 1]) + [MessageDoc(msgs[r[|r| - 1] - 1])]
  }

  lemma DocsAtAppend(msgs: seq<Message>, r: seq<int>, i: int)
    requires (forall k :: 0 <= k < |r| ==> 1 <= r[k] <= |msgs|) && 1 <= i <= |msgs|
    ensures DocsAt(msgs, r + [i]) == DocsAt(msgs, r) + [MessageDoc(msgs[i - 1])]
  {
    assert (r + [i])[..|r|] == r;
  }

  lemma {:induction false} ReadAllShows(base: Directory, msgs: seq<Message>, encode: Message -> string,
                                        parse: string -> Option<Doc>, ids: seq<int>)
    requires OnlyFolders(base) && IsInt(|msgs|) && ReadsBack(parse, encode)
    requires forall i :: i in ids ==> IsInt(i)
    ensures ReadAll(Written(base, msgs, encode), ids, parse) == DocsAt(msgs, Shows(base, |msgs|, ids))
    decreases |ids|
  {
    if ids == [] {
      assert ReadAll(Written(base, msgs, encode), ids, parse) == DocsAt(msgs, Shows(base, |msgs|, ids));
    } else {
      hide *;
      var k := |ids| - 1;
      ReadAllShows(base, msgs, encode, parse, ids[..k]);
      ReadWritten(base, msgs, encode, parse, ids[k]);
      ReadAllLast(Written(base, msgs, encode), ids, parse);
      ShowsLast(base, |msgs|, ids);
      if Shown(base, |msgs|, ids[k]) {
        DocsAtAppend(msgs, Shows(base, |msgs|, ids[..k]), ids[k]);
      } else {
        assert Shows(base, |msgs|, ids) == Shows(base, |msgs|, ids[..k]);
      }
      assert ReadAll(Written(base, msgs, encode), ids, parse) == DocsAt(msgs, Shows(base, |msgs|, ids));
    }
  }

  lemma ReadAllLast(d: Directory, ids: seq<int>, parse: string -> Option<Doc>)
    requires ids != []
    ensures var k := |ids| - 1;
            ReadAll(d, ids, parse) == ReadAll(d, ids[..k], parse) +
            match ReadDoc(d, ids[k], parse) case None => [] case Some(doc) => [doc]
  {
  }

  lemma ShowsLast(base: Directory, n: nat, ids: seq<int>)
    requires ids != []
    ensures var k := |ids| - 1;
            Shows(base, n, ids) == Shows(base, n, ids[..k]) + if Shown(base, n, ids[k]) then [ids[k]] else []
  {
  }

  lemma AppendCounts<T>(s: seq<T>, y: T, x: T)
    ensures multiset(s + [y])[x] == multiset(s)[x] + if x == y then 1 else 0
  {
  }

  lemma {:induction false} ShowsCount(base: Directory, n: nat, ids: seq<int>, i: int)
    ensures multiset(Shows(base, n, ids))[i] == if Shown(base, n, i) then multiset(ids)[i] else 0
    decreases |ids|
  {
    hide Shown;
    if ids != [] {
      var k := |ids| - 1;
      ShowsCount(base, n, ids[..k], i);
      assert ids == ids[..k] + [ids[k]];
      AppendCounts(ids[..k], ids[k], i);
    }
  }

  lemma {:induction false} ShowsSorted(base: Directory, n: nat, ids: seq<int>)
    requires SortedBy(ids, IntLeq)
    ensures SortedBy(Shows(base, n, ids), IntLeq)
    decreases |ids|
  {
    hide Shown;
    if ids != [] {
      var k := |ids| - 1;
      ShowsSorted(base, n, ids[..k]);
      assert forall i :: i in ids[..k] ==> i <= ids[k];
    }
  }

  // ----- How often a number is listed -----

  ghost function NamesWith(names: set<string>, i: int): set<string> {
    set name | name in names && Stoi(name) == Some(i)
  }

  lemma {:induction false} NumbersCount(order: seq<string>, names: set<string>, i: int)
    requires Distinct(order) && forall n :: n in order <==> n in names
    ensures multiset(Numbers(order))[i] == |NamesWith(names, i)|
    decreases |order|
  {
    hide Stoi;
    if order == [] {
      assert names == {};
    } else {
      var k := |order| - 1;
      var rest := names - {order[k]};
      assert order == order[..k] + [order[k]] && order[k] !in order[..k];
      NumbersCount(order[..k], rest, i);
      if Stoi(order[k]) == Some(i) {
        assert NamesWith(names, i) == NamesWith(rest, i) + {order[k]};
      } else {
        assert NamesWith(names, i) == NamesWith(rest, i);
      }
    }
  }

  /** How often message `i` is read: for its own file and for each folder whose name
      starts with its number, unless a folder hides it. */
  ghost function Readings(base: Directory, i: int): nat {
    if ToDecimal(i) in base || ToDecimal(i) + ".json" in base then 0 else 1 + |NamesWith(base.Keys, i)|
  }

  lemma ReadTimes(base: Directory, msgs: seq<Message>, encode: Message -> string,
                  order: seq<string>, ids: seq<int>, i: int)
    requires OnlyFolders(base) && IsInt(|msgs|) && i in OneTo(|msgs|)
    requires IsWalk(Written(base, msgs, encode), order, ids)
    ensures multiset(Shows(base, |msgs|, ids))[i] == Readings(base, i)
  {
    var d := Written(base, msgs, encode);
    ShowsCount(base, |msgs|, ids, i);
    NumbersCount(order, d.Keys, i);
    NamesWithNumber(base, msgs, encode, i);
    ShownUnlessNamed(base, |msgs|, i);
    hide Written, NameOf, Numbers, Shows, Shown, NamesWith, ToDecimal, OnlyFolders;
  }

  lemma ReadOnce(base: Directory, n: nat, i: int)
    requires IsInt(n) && i in OneTo(n)
    ensures Readings(base, i) == 1 <==> NamesWith(base.Keys, i) == {}
  {
    ShownUnlessNamed(base, n, i);
    hide Shown, NamesWith, NameOf, ToDecimal;
  }

  lemma FileHasItsNumber(base: Directory, msgs: seq<Message>, encode: Message -> string, name: string)
    requires OnlyFolders(base) && IsInt(|msgs|) && IsFileIn(Written(base, msgs, encode), name)
    ensures Stoi(name).Some? && name == NameOf(Stoi(name).value)
  {
    WrittenContains(base, msgs, encode);
    hide Written, Stoi, NameOf, OnlyFolders;
    var j :| 1 <= j <= |msgs| && name == NameOf(j) && NameOf(j) !in base;
    NumberedName(j);
  }

  /** A name in the written directory with this number is the message's file or a folder. */
  lemma NameWithNumber(base: Directory, msgs: seq<Message>, encode: Message -> string, i: int, name: string)
    requires OnlyFolders(base) && IsInt(|msgs|) && i in OneTo(|msgs|)
    ensures name in Written(base, msgs, encode) && Stoi(name) == Some(i) <==>
            name == NameOf(i) || (name in base && Stoi(name) == Some(i))
  {
    var d := Written(base, msgs, encode);
    NumberedName(i);
    assert (name in base ==> name in d) && (IsFolderIn(d, name) ==> name in base) && NameOf(i) in d by {
      WrittenContains(base, msgs, encode);
      hide Written, Stoi, NameOf;
    }
    if IsFileIn(d, name) {
      FileHasItsNumber(base, msgs, encode, name);
    }
    hide Written, Stoi, NameOf, OnlyFolders, OneTo;
  }

  /** The names with a message's number: its own, and those of folders. */
  lemma NamesWithNumber(base: Directory, msgs: seq<Message>, encode: Message -> string, i: int)
    requires OnlyFolders(base) && IsInt(|msgs|) && i in OneTo(|msgs|)
    ensures NamesWith(Written(base, msgs, encode).Keys, i) == NamesWith(base.Keys, i) + {NameOf(i)}
  {
    hide Written, Stoi, NameOf, OnlyFolders, OneTo;
    var d, all := Written(base, msgs, encode), NamesWith(base.Keys, i) + {NameOf(i)};
    forall name ensures name in NamesWith(d.Keys, i) <==> name in all {
      NameWithNumber(base, msgs, encode, i, name);
    }
  }

  lemma ShownUnlessNamed(base: Directory, n: nat, i: int)
    requires IsInt(n) && i in OneTo(n)
    ensures Shown(base, n, i) <==> NameOf(i) !in NamesWith(base.Keys, i) && ToDecimal(i) !in NamesWith(base.Keys, i)
  {
    NumberedName(i);
    StoiOfDecimal(i, "");
    assert ToDecimal(i) + "" == ToDecimal(i);
    hide Stoi, NameOf, ToDecimal;
  }

  /** The listing reads every message exactly once if and only if no folder's name starts
      with the number of a message. */
  lemma EachReadOnce(base: Directory, msgs: seq<Message>, encode: Message -> string,
                     order: seq<string>, ids: seq<int>)
    requires OnlyFolders(base) && IsInt(|msgs|) && IsWalk(Written(base, msgs, encode), order, ids)
    ensures NoFolderNumbered(base, |msgs|) <==>
            forall i :: i in OneTo(|msgs|) ==> multiset(Shows(base, |msgs|, ids))[i] == 1
  {
    hide Written, Stoi, Shows, IsWalk, Readings;
    if NoFolderNumbered(base, |msgs|) {
      forall i | i in OneTo(|msgs|) ensures multiset(Shows(base, |msgs|, ids))[i] == 1 {
        assert NamesWith(base.Keys, i) == {};
        ReadTimes(base, msgs, encode, order, ids, i);
        ReadOnce(base, |msgs|, i);
      }
    } else {
      var name :| name in base && Stoi(name).Some? && Stoi(name).value in OneTo(|msgs|);
      assert name in NamesWith(base.Keys, Stoi(name).value);
      ReadTimes(base, msgs, encode, order, ids, Stoi(name).value);
      ReadOnce(base, |msgs|, Stoi(name).value);
    }
  }

  /** Then they are read in their order. */
  lemma OnceIsAll(r: seq<int>, n: nat)
    requires SortedBy(r, IntLeq) && forall k :: 0 <= k < |r| ==> 1 <= r[k] <= n
    requires forall i :: i in OneTo(n) ==> multiset(r)[i] == 1
    ensures r == UpTo(n)
  {
    forall i, j | 0 <= i < j < |r| ensures r[i] < r[j] {
      if r[i] == r[j] {
        TwiceInMultiset(r, i, j);
      }
    }
    forall i | i in OneTo(n) ensures i in r {
      assert i in multiset(r);
    }
    ListOneToN(n);
    ListingUnique(r, UpTo(n), OneTo(n));
  }

  lemma {:induction false} DocsAtUpTo(msgs: seq<Message>, n: nat)
    requires n <= |msgs|
    ensures DocsAt(msgs, UpTo(n)) == DocsOf(msgs[..n])
    decreases n
  {
    if n > 0 {
      DocsAtUpTo(msgs, n - 1);
      DocsAtAppend(msgs, UpTo(n - 1), n);
      assert msgs[..n][..n - 1] == msgs[..n - 1];
    }
  }

  /** Different messages are told apart by what is read of them. */
  lemma {:induction false} DocsAtCount(msgs: seq<Message>, r: seq<int>, i: int)
    requires Distinct(msgs) && 1 <= i <= |msgs| && forall k :: 0 <= k < |r| ==> 1 <= r[k] <= |msgs|
    ensures multiset(DocsAt(msgs, r))[MessageDoc(msgs[i - 1])] == multiset(r)[i]
    decreases |r|
  {
    if r == [] {
    } else {
      hide *;
      var k := |r| - 1;
      assert r == r[..k] + [r[k]];
      DocsAtCount(msgs, r[..k], i);
      DocsAtAppend(msgs, r[..k], r[k]);
      AppendCounts(r[..k], r[k], i);
      AppendCounts(DocsAt(msgs, r[..k]), MessageDoc(msgs[r[k] - 1]), MessageDoc(msgs[i - 1]));
      DistinctAt(msgs, r[k] - 1, i - 1);
    }
  }

  lemma DistinctAt<T>(s: seq<T>, i: nat, j: nat)
    requires Distinct(s) && i < |s| && j < |s|
    ensures s[i] == s[j] <==> i == j
  {
  }

  /** After a persist, the listing is the stored messages, in some order, if no folder's
      name starts with the number of a message; and only then, unless equal messages
      stand in for each other. */
  lemma GetReturnsPersisted(base: Directory, msgs: seq<Message>, encode: Message -> string,
                            parse: string -> Option<Doc>, order: seq<string>, ids: seq<int>)
    requires OnlyFolders(base) && IsInt(|msgs|) && ReadsBack(parse, encode)
    requires IsWalk(Written(base, msgs, encode), order, ids)
    ensures var docs := ReadAll(Written(base, msgs, encode), ids, parse);
            && AllStamped(docs)
            && (NoFolderNumbered(base, |msgs|) ==> docs == DocsOf(msgs))
            && (Distinct(msgs) && multiset(docs) == multiset(DocsOf(msgs)) ==> NoFolderNumbered(base, |msgs|))
  {
    var r, n := Shows(base, |msgs|, ids), |msgs|;
    WalkedInts(Written(base, msgs, encode), order, ids);
    ReadAllShows(base, msgs, encode, parse, ids);
    AllAtStamped(msgs, r);
    ShowsSorted(base, n, ids);
    EachReadOnce(base, msgs, encode, order, ids);
    hide Written, ReadAll, Shows, NoFolderNumbered, DocsAt, DocsOf, OneTo;
    if NoFolderNumbered(base, n) {
      DocsAtAll(msgs, r);
    } else if Distinct(msgs) && multiset(DocsAt(msgs, r)) == multiset(DocsOf(msgs)) {
      forall i | i in OneTo(n) ensures multiset(r)[i] == 1 {
        DocsAtOnce(msgs, r, i);
      }
    }
  }

  lemma DocsAtAll(msgs: seq<Message>, r: seq<int>)
    requires SortedBy(r, IntLeq) && forall k :: 0 <= k < |r| ==> 1 <= r[k] <= |msgs|
    requires forall i :: i in OneTo(|msgs|) ==> multiset(r)[i] == 1
    ensures DocsAt(msgs, r) == DocsOf(msgs)
  {
    OnceIsAll(r, |msgs|);
    DocsAtUpTo(msgs, |msgs|);
    assert msgs[..|msgs|] == msgs;
  }

  lemma DocsAtOnce(msgs: seq<Message>, r: seq<int>, i: int)
    requires (forall k :: 0 <= k < |r| ==> 1 <= r[k] <= |msgs|) && i in OneTo(|msgs|)
    requires Distinct(msgs) && multiset(DocsAt(msgs, r)) == multiset(DocsOf(msgs))
    ensures multiset(r)[i] == 1
  {
    hide DocsAt, DocsOf, Distinct;
    DocsAtUpTo(msgs, |msgs|);
    assert msgs[..|msgs|] == msgs;
    DocsAtCount(msgs, r, i);
    DocsAtCount(msgs, UpTo(|msgs|), i);
    UpToHasOne(|msgs|, i);
  }

  lemma UpToHasOne(n: nat, i: int)
    requires i in OneTo(n)
    ensures multiset(UpTo(n))[i] == 1
  {
    assert UpTo(n)[i - 1] == i;
    DistinctHasOneEach(UpTo(n));
  }

  lemma WalkedInts(d: Directory, order: seq<string>, ids: seq<int>)
    requires IsWalk(d, order, ids)
    ensures forall i :: i in ids ==> IsInt(i)
  {
    NumbersAreInts(order);
    hide Numbers;
    forall i | i in ids ensures IsInt(i) {
      assert i in multiset(ids);
      assert i in multiset(Numbers(order));
    }
  }

  lemma {:induction false} NumbersAreInts(order: seq<string>)
    ensures forall i :: i in Numbers(order) ==> IsInt(i)
    decreases |order|
  {
    hide Stoi;
    if order != [] {
      NumbersAreInts(order[..|order| - 1]);
    }
  }

  lemma {:induction false} AllAtStamped(msgs: seq<Message>, r: seq<int>)
    requires forall k :: 0 <= k < |r| ==> 1 <= r[k] <= |msgs|
    ensures AllStamped(DocsAt(msgs, r))
    decreases |r|
  {
    if r != [] {
      AllAtStamped(msgs, r[..|r| - 1]);
    }
  }

  /** A folder whose name only starts with 1 already spoils the listing. */
  lemma FolderSpoilsListing(m: Message, encode: Message -> string, parse: string -> Option<Doc>,
                            order: seq<string>, ids: seq<int>)
    requires ReadsBack(parse, encode) && IsWalk(Written(map["1abc" := Folder(true)], [m], encode), order, ids)
    ensures multiset(ReadAll(Written(map["1abc" := Folder(true)], [m], encode), ids, parse)) !=
            multiset([MessageDoc(m)])
  {
    var base := map["1abc" := Folder(true)];
    hide Written, ReadAll, IsWalk;
    GetReturnsPersisted(base, [m], encode, parse, order, ids);
    StoiOfDecimal(1, "abc");
    assert ToDecimal(1) + "abc" == "1abc";
    assert !NoFolderNumbered(base, 1);
    assert DocsOf([m]) == [MessageDoc(m)];
  }

  /** These are messages, and none comes behind one with a later time stamp. */
  ghost predicate TimesAscend(docs: seq<Doc>) {
    && (forall i :: 0 <= i < |docs| ==> docs[i].MessageDoc?)
    && (forall i, j :: 0 <= i < j < |docs| ==> !ComesBefore(docs[j].msg.timestamp, docs[i].msg.timestamp))
  }

  lemma OrderedMessages(docs: seq<Doc>, msgs: seq<Message>)
    requires multiset(docs) == multiset(DocsOf(msgs)) && InOrder(docs)
    ensures TimesAscend(docs)
  {
    hide ComesBefore;
    forall i | 0 <= i < |docs| ensures docs[i].MessageDoc? {
      assert docs[i] in multiset(docs);
      assert docs[i] in DocsOf(msgs);
    }
    forall i, j | 0 <= i < j < |docs| ensures !ComesBefore(docs[j].msg.timestamp, docs[i].msg.timestamp) {
      assert StampOf(docs[i]) == Some(docs[i].msg.timestamp) && StampOf(docs[j]) == Some(docs[j].msg.timestamp);
    }
  }

  /** Whatever posts were interleaved before, a listing of the board's directory shows the
      first messages added, among them all that were answered, and all of them when no post
      is between its two parts; by time stamp. */
  lemma ListingShowsPosts(moves: seq<Move>, encode: Message -> string, parse: string -> Option<Doc>,
                          order: seq<string>, ids: seq<int>, reply: ListReply) returns (k: nat)
    requires Run(moves, encode).Some? && IsInt(|AddsOf(moves)|) && ReadsBack(parse, encode)
    requires IsWalk(Run(moves, encode).value.disk, order, ids)
    requires IsListReply(ReadAll(Run(moves, encode).value.disk, ids, parse), reply)
    ensures && k <= |AddsOf(moves)| && reply.Listed? && reply.status == 200
            && multiset(reply.docs) == multiset(DocsOf(AddsOf(moves)[..k]))
            && TimesAscend(reply.docs)
            && (forall i: nat :: IsAnswered(moves, i) ==> |AddsOf(moves[..i])| < k)
            && ((forall i: nat :: !IsHalfDone(moves, i)) ==> k == |AddsOf(moves)|)
  {
    k := RunHoldsPrefix(moves, encode);
    var b := Run(moves, encode).value;
    RunAsTold(moves, encode);
    GetReturnsPersisted(map[], b.messages[..k], encode, parse, order, ids);
    hide Run, Written, ReadAll, IsWalk, DocsOf, InOrder, TimesAscend, AddsOf, IsAnswered, IsHalfDone;
    OrderedMessages(reply.docs, b.messages[..k]);
    if forall i: nat :: !IsHalfDone(moves, i) {
      assert b.pending == map[];
      assert k < |b.messages| ==> IsPending(b, k);
    }
  }
}

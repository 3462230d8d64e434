/** MessageStore, the handler that posts to it, and all interleavings of posts. */
module MessageStores {
  import opened Wrappers
  import opened Text
  import opened Sorting
  import opened Files
  import opened MessageFiles

  /** A path on disk. */
  class DiskPath {
    var node: Node

    constructor (start: Node)
      ensures node == start
    {
      node := start;
    }
  }

  class MessageStore {
    var messages: seq<Message>

    constructor ()
      ensures messages == []
    {
      messages := [];
    }

    method Add(username: string, content: string, timestamp: string)
      modifies this
      ensures messages == old(messages) + [Message(content, timestamp, username)]
    {
      messages := messages + [Message(content, timestamp, username)];
    }

    method GetAll() returns (all: seq<Message>)
      ensures all == messages
    {
      all := messages;
    }

    /** `files` is the numeric order the files were read in. */
    method LoadFromFile(path: DiskPath, decode: string -> Option<Message>) returns (ghost files: seq<(int, string)>)
      modifies this
      ensures !path.node.Dir? ==> messages == []
      ensures path.node.Dir? ==>
                IsFileList(path.node.entries, files) && messages == Decoded(path.node.entries, files, decode)
    {
      hide Stem, Stoi, IsCandidate;
      messages := [];
      files := [];
      if !path.node.Dir? {
        return;
      }
      var entries := path.node.entries;
      var order := Enumerate(entries.Keys);
      var found := CollectFiles(entries, order);
      FileLeqIsTotal();
      var sorted := Sort(found, FileLeq);
      CandidatesOnce(entries, order);
      DistinctPermutation(sorted, found);
      CandidatesComplete(entries, order);
      files := sorted;
      for k := 0 to |sorted|
        invariant messages == Decoded(entries, sorted[..k], decode)
      {
        assert sorted[..k + 1][..k] == sorted[..k];
        assert sorted[k] in sorted && IsCandidate(entries, sorted[k].1);
        CandidateIsFile(entries, sorted[k].1);
        match decode(entries[sorted[k].1].content)
        case None =>
        case Some(m) => messages := messages + [m];
      }
      assert sorted[..|sorted|] == sorted;
    }

    /** Removes the regular files of the directory and writes the list anew. */
    method PersistToFile(path: DiskPath, encode: Message -> string)
      modifies path
      ensures path.node == Persisted(old(path.node), messages, encode)
      ensures path.node.PlainFile? <==> old(path.node).PlainFile?
      ensures !path.node.PlainFile? ==> path.node.Dir?
    {
      if path.node.Missing? {
        path.node := Dir(map[]);
      } else if path.node.PlainFile? {
        return;
      }
      ghost var entries := path.node.entries;
      RemoveFiles(path);
      ghost var base := path.node.entries;
      assert old(path.node).Missing? ==> base == map[];
      var idx := 1;
      while idx <= |messages|
        invariant 1 <= idx <= |messages| + 1
        invariant path.node == Dir(Written(base, messages[..idx - 1], encode))
      {
        assert messages[..idx][..idx - 1] == messages[..idx - 1];
        var name := ToDecimal(idx) + ".json";
        if name in path.node.entries && path.node.entries[name].Folder? {
          idx := idx + 1;
          continue;
        }
        path.node := Dir(path.node.entries[name := File(encode(messages[idx - 1]))]);
        idx := idx + 1;
      }
      assert messages[..|messages|] == messages;
    }
  }

  /** Removes the regular files of a directory. */
  method RemoveFiles(path: DiskPath)
    requires path.node.Dir?
    modifies path
    ensures path.node == Dir(FoldersOf(old(path.node.entries)))
  {
    ghost var entries := path.node.entries;
    var order := Enumerate(path.node.entries.Keys);
    for k := 0 to |order|
      invariant path.node.Dir? && path.node.entries.Keys <= entries.Keys
      invariant forall n :: n in path.node.entries ==> path.node.entries[n] == entries[n]
      invariant forall n :: n in entries && entries[n].Folder? ==> n in path.node.entries
      invariant forall j :: 0 <= j < k && entries[order[j]].File? ==> order[j] !in path.node.entries
      invariant forall j :: k <= j < |order| ==> order[j] in path.node.entries
    {
      if path.node.entries[order[k]].File? {
        path.node := Dir(path.node.entries - {order[k]});
      }
    }
    forall n | n in path.node.entries ensures entries[n].Folder? {
      assert n in order;
    }
    assert path.node.entries == FoldersOf(entries);
  }

  method CollectFiles(entries: Directory, order: seq<string>) returns (found: seq<(int, string)>)
    requires forall n :: n in order ==> n in entries
    ensures found == Candidates(entries, order)
  {
    hide Stem, Stoi;
    found := [];
    for k := 0 to |order|
      invariant found == Candidates(entries, order[..k])
    {
      assert order[..k + 1][..k] == order[..k];
      if entries[order[k]].File? {
        match Stoi(Stem(order[k]))
        case None =>
        case Some(idx) => found := found + [(idx, order[k])];
      }
    }
    assert order[..|order|] == order;
  }

  lemma CandidateIsFile(entries: Directory, name: string)
    requires IsCandidate(entries, name)
    ensures name in entries && entries[name].File? && ContentIn(entries, name) == entries[name].content
  {
  }

  lemma CandidatesComplete(entries: Directory, order: seq<string>)
    requires Distinct(order) && forall n :: n in order <==> n in entries
    ensures forall f :: f in Candidates(entries, order) <==>
              IsCandidate(entries, f.1) && f.0 == Stoi(Stem(f.1)).value
  {
    CandidatesOnce(entries, order);
  }

  lemma NoFolderInTheWay(entries: Directory, n: nat)
    ensures (forall i :: 1 <= i <= n ==> NameOf(i) !in FoldersOf(entries)) <==>
            forall i :: 1 <= i <= n ==> !IsFolderIn(entries, ToDecimal(i) + ".json")
  {
    hide ToDecimal;
    assert forall i :: NameOf(i) == ToDecimal(i) + ".json";
  }

  /** Persisting and loading through the store gives the list back exactly when, in a
      directory, no folder has the name of one of its files and, at a plain file, the
      list is empty. Nothing else that was there matters. */
  method PersistAndReload(store: MessageStore, path: DiskPath, encode: Message -> string,
                          decode: string -> Option<Message>) returns (before: seq<Message>, after: seq<Message>)
    requires Inverts(decode, encode) && IsInt(|store.messages|)
    modifies store, path
    ensures before == old(store.messages) && after == store.messages
    ensures before == after <==>
            match old(path.node)
            case Missing => true
            case PlainFile => before == []
            case Dir(entries) => forall i :: 1 <= i <= |before| ==> !IsFolderIn(entries, ToDecimal(i) + ".json")
  {
    hide NameOf, Written, Decoded, IsFileList;
    ghost var base := if path.node.Dir? then FoldersOf(path.node.entries) else map[];
    before := store.GetAll();
    store.PersistToFile(path, encode);
    ghost var files := store.LoadFromFile(path, decode);
    after := store.GetAll();
    if path.node.Dir? {
      PersistThenLoad(base, before, encode, decode, files);
      if old(path.node).Dir? {
        NoFolderInTheWay(old(path.node).entries, |before|);
      }
    }
  }
}

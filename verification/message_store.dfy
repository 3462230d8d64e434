/** The message list, the numbered files it is rewritten to, and reading them back. */
module MessageFiles {
  import opened Wrappers
  import opened Text
  import opened Sorting
  import opened Files

  datatype Message = Message(content: string, timestamp: string, username: string)

  /** What a path leads to. */
  datatype Node = Missing | PlainFile | Dir(entries: Directory)

  function NameOf(i: int): string { ToDecimal(i) + ".json" }

  function FoldersOf(entries: Directory): Directory {
    map n | n in entries && entries[n].Folder? :: entries[n]
  }

  /** `<1>.json` ... over what is there; a name taken by a folder cannot be opened. */
  function Written(base: Directory, msgs: seq<Message>, encode: Message -> string): Directory {
    if msgs == [] then base
    else
      var n := |msgs| - 1;
      var before := Written(base, msgs[..n], encode);
      if NameOf(n + 1) in before && before[NameOf(n + 1)].Folder? then before
      else before[NameOf(n + 1) := File(encode(msgs[n]))]
  }

  function Persisted(node: Node, msgs: seq<Message>, encode: Message -> string): Node {
    match node
    case PlainFile => PlainFile
    case Missing => Dir(Written(map[], msgs, encode))
    case Dir(entries) => Dir(Written(FoldersOf(entries), msgs, encode))
  }

  // ----- Loading -----

  /** The position of the last dot, |s| if there is none. */
  function LastDot(s: string): (n: nat)
    ensures n <= |s|
    ensures n < |s| ==> s[n] == '.'
    ensures forall i :: n < i < |s| ==> s[i] != '.'
    ensures n == |s| ==> forall i :: 0 <= i < |s| ==> s[i] != '.'
    decreases |s|
  {
    if s == [] then 0
    else if s[|s| - 1] == '.' then |s| - 1
    else
      var n := LastDot(s[..|s| - 1]);
      if n == |s| - 1 then |s| else n
  }

  /** path::stem: the name without its extension; a leading dot starts no extension. */
  function Stem(name: string): string {
    var n := LastDot(name);
    if n == 0 || name == ".." then name else name[..n]
  }

  /** The number of a file is the same read with or without its extension. */
  lemma StemKeepsNumber(name: string)
    ensures Stoi(Stem(name)) == Stoi(name)
  {
    hide Stoi;
    var n := LastDot(name);
    if n < |name| {
      StoiBeforeDot(name[..n], name[n + 1..]);
      assert name == name[..n] + "." + name[n + 1..];
    } else {
      assert name[..n] == name;
    }
  }

  predicate StrLeq(a: string, b: string)
    decreases |a|
  {
    if a == [] then true
    else if b == [] then false
    else if a[0] != b[0] then a[0] < b[0]
    else StrLeq(a[1..], b[1..])
  }

  lemma {:induction false} StrLeqTotal(a: string, b: string)
    ensures StrLeq(a, b) || StrLeq(b, a)
    decreases |a|
  {
    if a != [] && b != [] && a[0] == b[0] {
      StrLeqTotal(a[1..], b[1..]);
    }
  }

  lemma {:induction false} StrLeqTransitive(a: string, b: string, c: string)
    requires StrLeq(a, b) && StrLeq(b, c)
    ensures StrLeq(a, c)
    decreases |a|
  {
    if a != [] && a[0] == b[0] && b[0] == c[0] {
      StrLeqTransitive(a[1..], b[1..], c[1..]);
    }
  }

  /** `a` is a proper prefix of `b`, or has the smaller character where they first differ. */
  ghost predicate ComesBefore(a: string, b: string) {
    exists k: nat :: k <= |a| && k < |b| && a[..k] == b[..k] && (k == |a| || a[k] < b[k])
  }

  /** Comparing strings character by character decides which comes first. */
  lemma {:induction false} StrLeqIff(a: string, b: string)
    ensures StrLeq(a, b) <==> !ComesBefore(b, a)
    ensures StrLeq(a, b) <==> a == b || ComesBefore(a, b)
    decreases |a|
  {
    if a == [] || b == [] || a[0] != b[0] {
      assert a[..0] == b[..0];
      assert forall k: nat :: 0 < k <= |a| && k <= |b| && a[..k] == b[..k] ==> a[..k][0] == b[..k][0];
    } else {
      StrLeqIff(a[1..], b[1..]);
      BehindFirst(a, b);
      BehindFirst(b, a);
      assert a == [a[0]] + a[1..] && b == [b[0]] + b[1..];
    }
  }

  lemma BehindFirst(a: string, b: string)
    requires a != [] && b != [] && a[0] == b[0]
    ensures ComesBefore(a, b) <==> ComesBefore(a[1..], b[1..])
  {
    if ComesBefore(a, b) {
      var k: nat :| k <= |a| && k < |b| && a[..k] == b[..k] && (k == |a| || a[k] < b[k]);
      TakeBehindFirst(a, b, k - 1);
      assert a[1..][..k - 1] == b[1..][..k - 1];
    }
    if ComesBefore(a[1..], b[1..]) {
      var s, t := a[1..], b[1..];
      var k: nat :| k <= |s| && k < |t| && s[..k] == t[..k] && (k == |s| || s[k] < t[k]);
      TakeBehindFirst(a, b, k);
      assert a[..k + 1] == b[..k + 1];
    }
  }

  lemma TakeBehindFirst(a: string, b: string, k: nat)
    requires k < |a| && k < |b| && a[0] == b[0]
    ensures a[..k + 1] == b[..k + 1] <==> a[1..][..k] == b[1..][..k]
  {
    assert a[..k + 1] == [a[0]] + a[1..][..k] && b[..k + 1] == [b[0]] + b[1..][..k];
    assert a[..k + 1][1..] == a[1..][..k] && b[..k + 1][1..] == b[1..][..k];
  }

  /** The order of std::pair<int, fs::path> for paths in one directory. */
  predicate FileLeq(x: (int, string), y: (int, string)) {
    x.0 < y.0 || (x.0 == y.0 && StrLeq(x.1, y.1))
  }

  lemma FileLeqIsTotal()
    ensures TotalPreorder(FileLeq)
  {
    forall x, y ensures FileLeq(x, y) || FileLeq(y, x) {
      StrLeqTotal(x.1, y.1);
    }
    forall x, y, z | FileLeq(x, y) && FileLeq(y, z) ensures FileLeq(x, z) {
      if x.0 == y.0 == z.0 {
        StrLeqTransitive(x.1, y.1, z.1);
      }
    }
  }

  predicate IsCandidate(entries: Directory, name: string) {
    name in entries && entries[name].File? && Stoi(Stem(name)).Some?
  }

  /** The numbered regular files among `order`, in that order. */
  function Candidates(entries: Directory, order: seq<string>): seq<(int, string)> {
    if order == [] then []
    else
      var n := |order| - 1;
      Candidates(entries, order[..n]) +
      if IsCandidate(entries, order[n]) then [(Stoi(Stem(order[n])).value, order[n])] else []
  }

  function ContentIn(entries: Directory, name: string): string {
    if name in entries && entries[name].File? then entries[name].content else ""
  }

  /** The messages of those files that decode. */
  function Decoded(entries: Directory, files: seq<(int, string)>, decode: string -> Option<Message>): seq<Message> {
    if files == [] then []
    else
      var n := |files| - 1;
      Decoded(entries, files[..n], decode) +
      match decode(ContentIn(entries, files[n].1)) case None => [] case Some(m) => [m]
  }

  /** `files` are the numbered regular files of the directory, each once, in order. */
  ghost predicate IsFileList(entries: Directory, files: seq<(int, string)>) {
    && SortedBy(files, FileLeq)
    && Distinct(files)
    && (forall f :: f in files <==> IsCandidate(entries, f.1) && f.0 == Stoi(Stem(f.1)).value)
  }

  /** The list has each regular file whose name starts with a number, whatever comes
      behind it; the numbers ascend, and names of the same number are in the order of
      strings. */
  lemma FileListIs(entries: Directory, files: seq<(int, string)>)
    requires IsFileList(entries, files)
    ensures forall f :: f in files <==> IsFileIn(entries, f.1) && Stoi(f.1) == Some(f.0)
    ensures forall i, j :: 0 <= i < j < |files| ==>
              files[i].0 < files[j].0 || (files[i].0 == files[j].0 && ComesBefore(files[i].1, files[j].1))
  {
    hide StrLeq, ComesBefore, Stem, Stoi;
    forall f ensures f in files <==> IsFileIn(entries, f.1) && Stoi(f.1) == Some(f.0) {
      StemKeepsNumber(f.1);
    }
    forall i, j | 0 <= i < j < |files|
      ensures files[i].0 < files[j].0 || (files[i].0 == files[j].0 && ComesBefore(files[i].1, files[j].1))
    {
      assert FileLeq(files[i], files[j]) && files[i] != files[j];
      StrLeqIff(files[i].1, files[j].1);
    }
  }

  /** What the text of each file decodes to. */
  function DecodedEach(entries: Directory, files: seq<(int, string)>, decode: string -> Option<Message>)
    : seq<Option<Message>>
  {
    seq(|files|, i requires 0 <= i < |files| => decode(ContentIn(entries, files[i].1)))
  }

  /** The messages are those that the files decode to, in the order of the files and one
      each; a file that does not decode is left out. */
  lemma {:induction false} DecodedAt(entries: Directory, files: seq<(int, string)>, decode: string -> Option<Message>)
    returns (at: seq<nat>)
    ensures Picks(DecodedEach(entries, files, decode), Decoded(entries, files, decode), at)
    decreases |files|
  {
    hide Picks, ContentIn;
    if files == [] {
      at := [];
      PickNothing<Message>();
      assert DecodedEach(entries, files, decode) == [];
    } else {
      var n := |files| - 1;
      at := DecodedAt(entries, files[..n], decode);
      var m := decode(ContentIn(entries, files[n].1));
      var before := Decoded(entries, files[..n], decode);
      PickOneMore(DecodedEach(entries, files[..n], decode), before, at, m);
      assert DecodedEach(entries, files, decode) == DecodedEach(entries, files[..n], decode) + [m];
      assert m == None ==> Decoded(entries, files, decode) == before;
      at := if m.Some? then at + [n] else at;
    }
  }

  lemma {:induction false} CandidatesOnce(entries: Directory, order: seq<string>)
    requires Distinct(order)
    ensures Distinct(Candidates(entries, order))
    ensures forall f :: f in Candidates(entries, order) <==>
              f.1 in order && IsCandidate(entries, f.1) && f.0 == Stoi(Stem(f.1)).value
    decreases |order|
  {
    hide Stoi, Stem;
    if order != [] {
      var n := |order| - 1;
      CandidatesOnce(entries, order[..n]);
      assert order == order[..n] + [order[n]];
      assert order[n] !in order[..n];
    }
  }

  // ----- Persist, then load -----

  lemma NumberedName(i: int)
    requires i >= 0
    ensures Stem(NameOf(i)) == ToDecimal(i)
    ensures Stoi(Stem(NameOf(i))) == if IsInt(i) then Some(i) else None
    ensures Stoi(NameOf(i)) == if IsInt(i) then Some(i) else None
  {
    var s, d := NameOf(i), ToDecimal(i);
    assert AllDigits(d);
    StoiOfDecimal(i, "");
    StoiOfDecimal(i, ".json");
    hide Stoi, ToDecimal;
    assert d + "" == d;
    assert s[|d|] == '.';
    DotAfter(d);
    assert s[..|d|] == d;
  }

  lemma DotAfter(d: string)
    requires AllDigits(d) && d != []
    ensures LastDot(d + ".json") == |d| && d + ".json" != ".."
  {
    var s := d + ".json";
    assert s[|d|] == '.';
    assert forall i :: 1 <= i < 5 ==> ".json"[i] != '.';
    assert forall i :: |d| < i < |s| ==> s[i] == ".json"[i - |d|];
    assert forall i :: 0 <= i < |d| ==> s[i] == d[i] && d[i] in d;
  }

  lemma NamesDiffer(i: int, j: int)
    requires 0 <= i && 0 <= j && NameOf(i) == NameOf(j) && IsInt(i) && IsInt(j)
    ensures i == j
  {
    DecimalInjective(i, j, ".json");
  }

  predicate OnlyFolders(base: Directory) {
    forall name :: name in base ==> base[name].Folder?
  }

  /** What the written directory contains. */
  lemma {:induction false} WrittenContains(base: Directory, msgs: seq<Message>, encode: Message -> string)
    requires OnlyFolders(base) && IsInt(|msgs|)
    ensures var d := Written(base, msgs, encode);
            && (forall name :: name in base ==> name in d && d[name] == base[name])
            && (forall name :: name in d && d[name].Folder? ==> name in base)
            && (forall i :: 1 <= i <= |msgs| && NameOf(i) !in base ==>
                  NameOf(i) in d && d[NameOf(i)] == File(encode(msgs[i - 1])))
            && (forall name :: name in d && d[name].File? ==>
                  exists i :: 1 <= i <= |msgs| && name == NameOf(i) && NameOf(i) !in base)
    decreases |msgs|
  {
    hide NameOf;
    if msgs != [] {
      var n := |msgs| - 1;
      WrittenContains(base, msgs[..n], encode);
      var before, d := Written(base, msgs[..n], encode), Written(base, msgs, encode);
      forall i | 1 <= i <= n && NameOf(i) == NameOf(n + 1) ensures false {
        NamesDiffer(i, n + 1);
      }
      forall i | 1 <= i <= |msgs| && NameOf(i) !in base
        ensures NameOf(i) in d && d[NameOf(i)] == File(encode(msgs[i - 1]))
      {
        if i <= n {
          assert msgs[..n][i - 1] == msgs[i - 1];
          assert NameOf(i) != NameOf(n + 1);
        }
      }
      forall name | name in d && d[name].File?
        ensures exists i :: 1 <= i <= |msgs| && name == NameOf(i) && NameOf(i) !in base
      {
        if name in before && before[name].File? {
          var i :| 1 <= i <= n && name == NameOf(i) && NameOf(i) !in base;
        } else {
          assert name == NameOf(n + 1);
        }
      }
    }
  }

  /** The numbers of the files, in their order. */
  function Indices(files: seq<(int, string)>): (r: seq<int>)
    ensures |r| == |files| && forall k :: 0 <= k < |files| ==> r[k] == files[k].0
  {
    seq(|files|, k requires 0 <= k < |files| => files[k].0)
  }

  function OneTo(n: nat): (r: set<int>)
    ensures forall i :: i in r <==> 1 <= i <= n
  {
    if n == 0 then {} else OneTo(n - 1) + {n}
  }

  function UpTo(n: nat): (r: seq<int>)
    ensures |r| == n && forall k :: 0 <= k < n ==> r[k] == k + 1
  {
    if n == 0 then [] else UpTo(n - 1) + [n]
  }

  /** The numbers of 1..n whose file no folder is in the way of. */
  function Free(base: Directory, n: nat): set<int> {
    set i | i in OneTo(n) && NameOf(i) !in base
  }

  /** The numbered files of a written directory. */
  lemma WrittenCandidates(base: Directory, msgs: seq<Message>, encode: Message -> string)
    requires OnlyFolders(base) && IsInt(|msgs|)
    ensures var d := Written(base, msgs, encode);
            && (forall i :: i in Free(base, |msgs|) ==>
                  IsCandidate(d, NameOf(i)) && Stoi(Stem(NameOf(i))) == Some(i))
            && (forall name :: IsCandidate(d, name) ==>
                  Stoi(Stem(name)).value in Free(base, |msgs|) && name == NameOf(Stoi(Stem(name)).value))
  {
    WrittenContains(base, msgs, encode);
    hide Written, NameOf, Stem, Stoi;
    forall i | i in OneTo(|msgs|) ensures Stoi(Stem(NameOf(i))) == Some(i) {
      NumberedName(i);
    }
  }

  /** In a written directory the file list is `<1>.json`, `<2>.json`, ... without those
      that a folder is in the way of. */
  lemma WrittenFileList(base: Directory, msgs: seq<Message>, encode: Message -> string, files: seq<(int, string)>)
    requires OnlyFolders(base) && IsInt(|msgs|)
    requires IsFileList(Written(base, msgs, encode), files)
    ensures forall k :: 0 <= k < |files| ==> files[k].1 == NameOf(files[k].0)
    ensures IsListing(Indices(files), Free(base, |msgs|))
  {
    var d, r := Written(base, msgs, encode), Indices(files);
    WrittenCandidates(base, msgs, encode);
    hide Written, NameOf, Stem, Stoi, IsCandidate, Free;
    forall k | 0 <= k < |files| ensures r[k] in Free(base, |msgs|) && files[k].1 == NameOf(files[k].0) {
      assert files[k] in files;
    }
    forall i | i in Free(base, |msgs|) ensures i in r {
      assert (i, NameOf(i)) in files by { assert IsCandidate(d, (i, NameOf(i)).1); }
      var k :| 0 <= k < |files| && files[k] == (i, NameOf(i));
      assert r[k] == i;
    }
    forall i, j | 0 <= i < j < |r| ensures r[i] < r[j] {
      assert FileLeq(files[i], files[j]) && files[i] != files[j];
    }
  }

  lemma {:induction false} DecodedAtMost(entries: Directory, files: seq<(int, string)>,
                                         decode: string -> Option<Message>)
    ensures |Decoded(entries, files, decode)| <= |files|
    decreases |files|
  {
    if files != [] {
      DecodedAtMost(entries, files[..|files| - 1], decode);
    }
  }

  lemma {:induction false} DecodedAll(entries: Directory, files: seq<(int, string)>, msgs: seq<Message>,
                                      decode: string -> Option<Message>)
    requires |files| == |msgs|
    requires forall k :: 0 <= k < |msgs| ==> decode(ContentIn(entries, files[k].1)) == Some(msgs[k])
    ensures Decoded(entries, files, decode) == msgs
    decreases |files|
  {
    if files != [] {
      var n := |files| - 1;
      DecodedAll(entries, files[..n], msgs[..n], decode);
      assert msgs == msgs[..n] + [msgs[n]];
    }
  }

  /** What a persist leaves: the folders that were there, and one file for each message
      whose name no folder has, with its number from 1 and its text. */
  lemma PersistedContains(node: Node, msgs: seq<Message>, encode: Message -> string)
    requires !node.PlainFile? && IsInt(|msgs|)
    ensures var after := Persisted(node, msgs, encode);
            var before := if node.Dir? then node.entries else map[];
            && after.Dir?
            && (forall name :: IsFolderIn(after.entries, name) <==> IsFolderIn(before, name))
            && (forall name :: IsFolderIn(before, name) ==>
                  name in after.entries && after.entries[name] == before[name])
            && (forall i :: 1 <= i <= |msgs| && !IsFolderIn(before, ToDecimal(i) + ".json") ==>
                  ToDecimal(i) + ".json" in after.entries &&
                  after.entries[ToDecimal(i) + ".json"] == File(encode(msgs[i - 1])))
            && (forall name :: IsFileIn(after.entries, name) ==>
                  exists i :: 1 <= i <= |msgs| && name == ToDecimal(i) + ".json")
  {
    var base := if node.Dir? then FoldersOf(node.entries) else map[];
    WrittenContains(base, msgs, encode);
    hide Written, ToDecimal;
    forall i ensures NameOf(i) == ToDecimal(i) + ".json" {
    }
  }

  /** The decoder undoes the encoder. */
  ghost predicate Inverts(decode: string -> Option<Message>, encode: Message -> string) {
    forall m :: decode(encode(m)) == Some(m)
  }

  /** Loading what was persisted gives the list back exactly when no folder has the
      name of one of its files. */
  lemma PersistThenLoad(base: Directory, msgs: seq<Message>, encode: Message -> string,
                        decode: string -> Option<Message>, files: seq<(int, string)>)
    requires OnlyFolders(base) && IsInt(|msgs|) && Inverts(decode, encode)
    requires IsFileList(Written(base, msgs, encode), files)
    ensures Decoded(Written(base, msgs, encode), files, decode) == msgs <==>
            forall i :: 1 <= i <= |msgs| ==> NameOf(i) !in base
  {
    WrittenFileList(base, msgs, encode, files);
    if forall i :: 1 <= i <= |msgs| ==> NameOf(i) !in base {
      LoadsAll(base, msgs, encode, decode, files);
    } else {
      var i :| 1 <= i <= |msgs| && NameOf(i) in base;
      LoadsFewer(Written(base, msgs, encode), files, decode, Free(base, |msgs|), |msgs|, i);
    }
  }

  /** The list is not always given back: a folder named like the first file loses it. */
  lemma FolderLosesMessage(m: Message, encode: Message -> string, decode: string -> Option<Message>,
                           files: seq<(int, string)>)
    requires Inverts(decode, encode)
    requires IsFileList(Written(map[NameOf(1) := Folder(true)], [m], encode), files)
    ensures Decoded(Written(map[NameOf(1) := Folder(true)], [m], encode), files, decode) != [m]
  {
    PersistThenLoad(map[NameOf(1) := Folder(true)], [m], encode, decode, files);
  }

  lemma LoadsFewer(d: Directory, files: seq<(int, string)>, decode: string -> Option<Message>,
                   free: set<int>, n: nat, c: int)
    requires IsListing(Indices(files), free) && free <= OneTo(n) && c in OneTo(n) && c !in free
    ensures |Decoded(d, files, decode)| < n
  {
    var r := Indices(files);
    forall k | 0 <= k < |r| ensures 1 <= r[k] <= n {
      assert r[k] in r;
    }
    AscendingMisses(r, n, c);
    DecodedAtMost(d, files, decode);
  }

  lemma LoadsAll(base: Directory, msgs: seq<Message>, encode: Message -> string,
                 decode: string -> Option<Message>, files: seq<(int, string)>)
    requires OnlyFolders(base) && IsInt(|msgs|) && Inverts(decode, encode)
    requires forall k :: 0 <= k < |files| ==> files[k].1 == NameOf(files[k].0)
    requires IsListing(Indices(files), Free(base, |msgs|))
    requires forall i :: 1 <= i <= |msgs| ==> NameOf(i) !in base
    ensures Decoded(Written(base, msgs, encode), files, decode) == msgs
  {
    var d, n := Written(base, msgs, encode), |msgs|;
    WrittenContains(base, msgs, encode);
    assert Free(base, n) == OneTo(n);
    FilesOneToN(files, n);
    hide Written, NameOf, OneTo, Free, IsListing;
    forall k | 0 <= k < n ensures decode(ContentIn(d, files[k].1)) == Some(msgs[k]) {
      assert d[NameOf(k + 1)] == File(encode(msgs[k]));
    }
    DecodedAll(d, files, msgs, decode);
  }

  lemma FilesOneToN(files: seq<(int, string)>, n: nat)
    requires IsListing(Indices(files), OneTo(n))
    ensures |files| == n && forall k :: 0 <= k < n ==> files[k].0 == k + 1
  {
    ListOneToN(n);
    ListingUnique(Indices(files), UpTo(n), OneTo(n));
    assert forall k :: 0 <= k < n ==> Indices(files)[k] == UpTo(n)[k];
  }

  lemma ListOneToN(n: nat)
    ensures IsListing(UpTo(n), OneTo(n))
  {
  }
}

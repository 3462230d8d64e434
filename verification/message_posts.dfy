/** Posting a message, alone and interleaved with other posts. */
module MessagePosts {
  import opened Wrappers
  import opened Text
  import opened HttpTypes
  import opened Files
  import opened MessageFiles
  import opened MessageStores

  class PostMessageHandler {
    const store: MessageStore
    const messagesDir: DiskPath

    constructor (store: MessageStore, dir: DiskPath)
      modifies dir
      ensures this.store == store && messagesDir == dir
      ensures dir.node == if old(dir.node).Missing? then Dir(map[]) else old(dir.node)
    {
      this.store, messagesDir := store, dir;
      new;
      if dir.node.Missing? {
        dir.node := Dir(map[]);
      }
    }

    /** `parseContent` is the reading of the JSON body, "" when it has no content. */
    method HandleRequest(request: HttpRequest, parseContent: string -> string, encode: Message -> string,
                         timestamp: string) returns (status: int)
      modifies store, messagesDir
      ensures request.verb != "POST" ==> status == 405
      ensures request.verb == "POST" && request.session.user == None ==> status == 401
      ensures request.verb == "POST" && request.session.user.Some? && parseContent(request.body) == "" ==> status == 400
      ensures request.verb == "POST" && request.session.user.Some? && parseContent(request.body) != "" ==>
                && status == 201
                && store.messages == old(store.messages) +
                     [Message(parseContent(request.body), timestamp, request.session.user.value)]
                && messagesDir.node == Persisted(old(messagesDir.node), store.messages, encode)
      ensures status != 201 ==> store.messages == old(store.messages) && messagesDir.node == old(messagesDir.node)
    {
      if request.verb != "POST" {
        return 405;
      }
      if request.session.user == None {
        return 401;
      }
      var username := request.session.user.value;
      var content := parseContent(request.body);
      if content == "" {
        return 400;
      }
      store.Add(username, content, timestamp);
      store.PersistToFile(messagesDir, encode);
      status := 201;
    }
  }

  // ----- Interleaved posts: the two locked parts of a post are two steps -----

  /** `pending` maps a thread between its parts to the place its message got; `posted`
      are the places of the messages whose post has been answered. */
  datatype Board = Board(messages: seq<Message>, disk: Directory, pending: map<nat, nat>, posted: set<nat>)

  const EMPTY_BOARD := Board([], map[], map[], {})

  datatype Move = Add(thread: nat, msg: Message) | Persist(thread: nat)

  function Next(b: Board, m: Move, encode: Message -> string): Option<Board> {
    match m
    case Add(thread, msg) =>
      if thread in b.pending then None
      else Some(b.(messages := b.messages + [msg], pending := b.pending[thread := |b.messages|]))
    case Persist(thread) =>
      if thread !in b.pending then None
      else
        var node := Persisted(Dir(b.disk), b.messages, encode);
        Some(b.(disk := node.entries, pending := b.pending - {thread}, posted := b.posted + {b.pending[thread]}))
  }

  function Run(moves: seq<Move>, encode: Message -> string): Option<Board>
    decreases |moves|
  {
    if moves == [] then Some(EMPTY_BOARD)
    else
      var n := |moves| - 1;
      match Run(moves[..n], encode)
      case None => None
      case Some(b) => Next(b, moves[n], encode)
  }

  ghost predicate IsPending(b: Board, i: int) {
    exists t :: t in b.pending && b.pending[t] == i
  }

  /** The disk holds the first `k` messages, and later ones are still to be persisted. */
  ghost predicate HoldsPrefix(b: Board, k: nat, encode: Message -> string) {
    && k <= |b.messages|
    && b.disk == Written(map[], b.messages[..k], encode)
    && (forall i :: i in b.posted ==> i < k)
    && (forall i :: k <= i < |b.messages| ==> IsPending(b, i))
    && (forall t :: t in b.pending ==> b.pending[t] < |b.messages|)
  }

  lemma {:induction false} NoFoldersWritten(msgs: seq<Message>, encode: Message -> string)
    ensures FoldersOf(Written(map[], msgs, encode)) == map[]
    decreases |msgs|
  {
    hide NameOf;
    if msgs != [] {
      var before := Written(map[], msgs[..|msgs| - 1], encode);
      NoFoldersWritten(msgs[..|msgs| - 1], encode);
      forall n | n in before ensures !before[n].Folder? {
        assert n !in FoldersOf(before);
      }
    }
  }

  lemma NextHoldsPrefix(b: Board, k: nat, m: Move, encode: Message -> string) returns (k': nat)
    requires HoldsPrefix(b, k, encode) && Next(b, m, encode).Some?
    ensures k' >= k && HoldsPrefix(Next(b, m, encode).value, k', encode)
  {
    hide Written;
    var b' := Next(b, m, encode).value;
    match m
    case Add(thread, msg) =>
      k' := k;
      assert b'.messages[..k] == b.messages[..k];
      forall i | k <= i < |b'.messages| ensures IsPending(b', i) {
        if i < |b.messages| {
          assert IsPending(b, i);
          var t :| t in b.pending && b.pending[t] == i;
          assert b'.pending[t] == i;
        } else {
          assert b'.pending[thread] == i;
        }
      }
    case Persist(thread) =>
      k' := |b.messages|;
      NoFoldersWritten(b.messages[..k], encode);
      assert b'.messages[..k'] == b.messages;
  }

  lemma {:induction false} RunHoldsPrefix(moves: seq<Move>, encode: Message -> string) returns (k: nat)
    requires Run(moves, encode).Some?
    ensures HoldsPrefix(Run(moves, encode).value, k, encode)
    decreases |moves|
  {
    if moves == [] {
      k := 0;
    } else {
      var n := |moves| - 1;
      var before := RunHoldsPrefix(moves[..n], encode);
      k := NextHoldsPrefix(Run(moves[..n], encode).value, before, moves[n], encode);
    }
  }

  // ----- What is on disk, told from the moves alone -----

  /** The messages added, in the order of the adds. */
  function AddsOf(moves: seq<Move>): seq<Message> {
    if moves == [] then []
    else
      var n := |moves| - 1;
      AddsOf(moves[..n]) + match moves[n] case Add(_, msg) => [msg] case Persist(_) => []
  }

  /** The i-th move adds a message, and its thread has persisted since. */
  predicate IsAnswered(moves: seq<Move>, i: nat): (b: bool)
    ensures b ==> i < |moves| && moves[i].Add?
  {
    && i < |moves| && moves[i].Add?
    && exists j :: i < j < |moves| && moves[j] == Persist(moves[i].thread)
  }

  predicate IsHalfDone(moves: seq<Move>, i: nat): (b: bool)
    ensures b ==> i < |moves| && moves[i].Add?
  {
    && i < |moves| && moves[i].Add?
    && forall j :: i < j < |moves| ==> moves[j] != Persist(moves[i].thread)
  }

  /** The board keeps what the moves tell. */
  ghost predicate BoardAsTold(moves: seq<Move>, b: Board) {
    && b.messages == AddsOf(moves)
    && (forall i: nat :: IsAnswered(moves, i) ==> |AddsOf(moves[..i])| in b.posted)
    && (forall i: nat :: IsHalfDone(moves, i) ==>
          moves[i].thread in b.pending && b.pending[moves[i].thread] == |AddsOf(moves[..i])|)
    && (forall t :: t in b.pending ==> exists i: nat :: IsHalfDone(moves, i) && moves[i].thread == t)
  }

  lemma AddedAs(moves: seq<Move>, i: nat)
    requires moves != [] && i < |moves| - 1
    ensures var init, m := moves[..|moves| - 1], moves[|moves| - 1];
            && init[..i] == moves[..i]
            && (IsAnswered(moves, i) <==> IsAnswered(init, i) || (moves[i].Add? && m == Persist(moves[i].thread)))
            && (IsHalfDone(moves, i) <==> IsHalfDone(init, i) && m != Persist(moves[i].thread))
  {
    var init, m := moves[..|moves| - 1], moves[|moves| - 1];
    if moves[i].Add? {
      assert forall j :: i < j < |init| ==> init[j] == moves[j];
    }
  }

  lemma NextPosted(moves: seq<Move>, b: Board, encode: Message -> string, i: nat)
    requires moves != [] && BoardAsTold(moves[..|moves| - 1], b) && Next(b, moves[|moves| - 1], encode).Some?
    requires IsAnswered(moves, i)
    ensures |AddsOf(moves[..i])| in Next(b, moves[|moves| - 1], encode).value.posted
  {
    hide Persisted, AddsOf, IsHalfDone;
    AddedAs(moves, i);
    if !IsAnswered(moves[..|moves| - 1], i) {
      HalfDoneOrAnswered(moves[..|moves| - 1], i);
    }
    hide IsAnswered;
  }

  lemma HalfDoneOrAnswered(moves: seq<Move>, i: nat)
    requires i < |moves| && moves[i].Add?
    ensures IsAnswered(moves, i) || IsHalfDone(moves, i)
  {
  }

  lemma NextPending(moves: seq<Move>, b: Board, encode: Message -> string, i: nat)
    requires moves != [] && BoardAsTold(moves[..|moves| - 1], b) && Next(b, moves[|moves| - 1], encode).Some?
    requires IsHalfDone(moves, i)
    ensures var pending := Next(b, moves[|moves| - 1], encode).value.pending;
            moves[i].thread in pending && pending[moves[i].thread] == |AddsOf(moves[..i])|
  {
    hide Persisted, AddsOf, IsAnswered;
    if i < |moves| - 1 {
      AddedAs(moves, i);
      hide IsHalfDone;
    }
  }

  lemma NextHalfDone(moves: seq<Move>, b: Board, encode: Message -> string, t: nat)
    requires moves != [] && BoardAsTold(moves[..|moves| - 1], b) && Next(b, moves[|moves| - 1], encode).Some?
    requires t in Next(b, moves[|moves| - 1], encode).value.pending
    ensures exists i: nat :: IsHalfDone(moves, i) && moves[i].thread == t
  {
    hide Persisted, AddsOf, IsAnswered;
    if t in b.pending {
      var i: nat :| IsHalfDone(moves[..|moves| - 1], i) && moves[..|moves| - 1][i].thread == t;
      AddedAs(moves, i);
    } else {
      assert IsHalfDone(moves, |moves| - 1);
    }
  }

  lemma NextAsTold(moves: seq<Move>, b: Board, encode: Message -> string)
    requires moves != [] && BoardAsTold(moves[..|moves| - 1], b) && Next(b, moves[|moves| - 1], encode).Some?
    ensures BoardAsTold(moves, Next(b, moves[|moves| - 1], encode).value)
  {
    var b' := Next(b, moves[|moves| - 1], encode).value;
    assert b'.messages == AddsOf(moves);
    hide Next, AddsOf, IsAnswered, IsHalfDone;
    forall i: nat | IsAnswered(moves, i) ensures |AddsOf(moves[..i])| in b'.posted {
      NextPosted(moves, b, encode, i);
    }
    forall i: nat | IsHalfDone(moves, i)
      ensures moves[i].thread in b'.pending && b'.pending[moves[i].thread] == |AddsOf(moves[..i])|
    {
      NextPending(moves, b, encode, i);
    }
    forall t | t in b'.pending ensures exists i: nat :: IsHalfDone(moves, i) && moves[i].thread == t {
      NextHalfDone(moves, b, encode, t);
    }
  }

  lemma {:induction false} RunAsTold(moves: seq<Move>, encode: Message -> string)
    requires Run(moves, encode).Some?
    ensures BoardAsTold(moves, Run(moves, encode).value)
    decreases |moves|
  {
    if moves != [] {
      RunAsTold(moves[..|moves| - 1], encode);
      NextAsTold(moves, Run(moves[..|moves| - 1], encode).value, encode);
    }
  }

  /** After every interleaving of posts, reading the directory gives a prefix of the
      messages added that has every message whose post was answered, and all of them when
      no thread is between its two parts. */
  lemma PostedIsOnDisk(moves: seq<Move>, encode: Message -> string, decode: string -> Option<Message>,
                       files: seq<(int, string)>)
    requires Run(moves, encode).Some? && Inverts(decode, encode)
    requires IsInt(|AddsOf(moves)|)
    requires IsFileList(Run(moves, encode).value.disk, files)
    ensures var loaded := Decoded(Run(moves, encode).value.disk, files, decode);
            && loaded <= AddsOf(moves)
            && (forall i: nat :: IsAnswered(moves, i) ==> |AddsOf(moves[..i])| < |loaded|)
            && ((forall i: nat :: !IsHalfDone(moves, i)) ==> loaded == AddsOf(moves))
  {
    var k := RunHoldsPrefix(moves, encode);
    var b := Run(moves, encode).value;
    RunAsTold(moves, encode);
    PersistThenLoad(map[], b.messages[..k], encode, decode, files);
    hide Written, IsFileList, Decoded, Run, AddsOf, IsAnswered, IsHalfDone;
    if forall i: nat :: !IsHalfDone(moves, i) {
      assert b.pending == map[];
      assert k < |b.messages| ==> IsPending(b, k);
    }
  }
}

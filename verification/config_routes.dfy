/** The route table: longest-prefix dispatch, and the routes a configuration makes. */
module Dispatching {

  /** A handler factory; NoFactory is the empty std::function, which throws when called. */
  datatype Factory = NoFactory | Create(handler: string, args: seq<string>)

  predicate Longest(keys: set<string>, path: string, key: string) {
    key in keys && key <= path && forall k :: k in keys && k <= path ==> |k| <= |key|
  }

  lemma LongestUnique(keys: set<string>, path: string, a: string, b: string)
    requires Longest(keys, path, a) && Longest(keys, path, b)
    ensures a == b
  {
    assert a == path[..|a|] && b == path[..|b|];
  }

  class Dispatcher {
    var routes: map<string, Factory>

    constructor ()
      ensures routes == map[]
    {
      routes := map[];
    }

    method RegisterRoute(path: string, factory: Factory)
      modifies this
      ensures routes == old(routes)[path := factory]
    {
      routes := routes[path := factory];
    }

    /** Dispatch on `path`, for any order in which the table is walked. A path without
        a registered non-empty prefix gets the entry of the empty key, which
        operator[] makes, empty, if it is not there. */
    method Match(path: string) returns (factory: Factory)
      modifies this
      ensures forall key :: Longest(old(routes).Keys, path, key) ==>
                factory == old(routes)[key] && routes == old(routes)
      ensures (forall k :: k in old(routes) ==> !(k <= path)) ==>
                factory == NoFactory && routes == old(routes)["" := NoFactory]
    {
      var longestMatch := "";
      var matchLength := 0;
      var unseen := routes.Keys;
      while unseen != {}
        invariant unseen <= routes.Keys
        invariant matchLength == |longestMatch| && longestMatch <= path
        invariant longestMatch == "" || longestMatch in routes
        invariant forall k :: k in routes.Keys - unseen && k <= path ==> |k| <= matchLength
        decreases unseen
      {
        var key :| key in unseen;
        unseen := unseen - {key};
        if !(key <= path) {
          continue;
        }
        if |key| > matchLength {
          longestMatch := key;
          matchLength := |key|;
        }
      }
      forall key | Longest(routes.Keys, path, key) ensures key == longestMatch {
        assert |key| == |longestMatch|;
        assert key == path[..|key|] && longestMatch == path[..|longestMatch|];
      }
      if longestMatch !in routes {
        routes := routes[longestMatch := NoFactory];
      }
      factory := routes[longestMatch];
    }
  }
}

module ConfigRoutes {
  import opened Wrappers
  import opened Text
  import opened Streams
  import opened Dispatching
  import opened ConfigGrammar
  import opened ConfigPrinter
  import opened ConfigParser

  /** parseConfig returns true, returns false, or lets an exception of stoi escape. */
  datatype Outcome = Accepted | Rejected | Threw

  predicate IsPort(s: Stmt) {
    |s.tokens| == 2 && s.tokens[0] == "port"
  }

  predicate IsLocation(s: Stmt) {
    |s.tokens| >= 3 && s.tokens[0] == "location"
  }

  predicate EndsInSlash(path: string) {
    path != [] && path[|path| - 1] == '/'
  }

  /** The paths of the locations of `ss`. */
  function Paths(ss: seq<Stmt>): set<string> {
    set i | 0 <= i < |ss| && IsLocation(ss[i]) :: ss[i].tokens[1]
  }

  /** What one statement decides, behind locations with the paths `seen`. */
  function StmtVerdict(s: Stmt, seen: set<string>): Outcome {
    if IsPort(s) then (if Stoi(s.tokens[1]).Some? then Accepted else Threw)
    else if IsLocation(s) && (EndsInSlash(s.tokens[1]) || s.tokens[1] in seen) then Rejected
    else Accepted
  }

  /** The first statement that is not accepted decides. */
  function Verdict(ss: seq<Stmt>): Outcome {
    if ss == [] then Accepted
    else
      var n := |ss| - 1;
      var before := Verdict(ss[..n]);
      if before == Accepted then StmtVerdict(ss[n], Paths(ss[..n])) else before
  }

  function BlockOf(s: Stmt): seq<Stmt> {
    match s case Simple(_) => [] case Block(_, body) => body
  }

  /** Second words of the statements of a block. */
  function BlockArgs(ss: seq<Stmt>): seq<string> {
    if ss == [] then []
    else
      var n := |ss| - 1;
      BlockArgs(ss[..n]) + if |ss[n].tokens| >= 2 then [ss[n].tokens[1]] else []
  }

  function RouteFactory(s: Stmt): Factory
    requires IsLocation(s)
  {
    Create(s.tokens[2], [s.tokens[1]] + BlockArgs(BlockOf(s)))
  }

  function Register(routes: map<string, Factory>, ss: seq<Stmt>): map<string, Factory> {
    if ss == [] then routes
    else
      var n := |ss| - 1;
      var before := Register(routes, ss[..n]);
      if IsLocation(ss[n]) then before[ss[n].tokens[1] := RouteFactory(ss[n])] else before
  }

  function PortOf(port: int, ss: seq<Stmt>): int {
    if ss == [] then port
    else
      var n := |ss| - 1;
      match if IsPort(ss[n]) then Stoi(ss[n].tokens[1]) else None
      case Some(p) => p
      case None => PortOf(port, ss[..n])
  }

  const NOT_FOUND := Create("NotFoundHandler", ["/"])

  /** The args of a route: its path, then the second words inside its block. */
  method CollectArgs(stmt: NginxConfigStatement, path: string, ghost tree: Stmt, ghost nodes: set<object>)
    returns (args: seq<string>)
    requires StmtHolds(stmt, tree, nodes)
    ensures args == [path] + BlockArgs(BlockOf(tree))
    ensures exists at :: IsArgs(args, path, BlockOf(tree), at)
  {
    hide IsArgs;
    args := [path];
    if stmt.child != null {
      var inner := stmt.child.statements;
      var i := 0;
      while i < |inner|
        invariant i <= |inner| && args == [path] + BlockArgs(tree.body[..i])
      {
        assert tree.body[..i + 1][..i] == tree.body[..i];
        assert StmtHolds(inner[i], tree.body[i], nodes);
        if |inner[i].tokens| >= 2 {
          args := args + [inner[i].tokens[1]];
        }
        i := i + 1;
      }
      assert tree.body[..i] == tree.body;
    }
    ghost var at := BlockArgsAt(path, BlockOf(tree));
  }

  /** The loop of parseConfig over the parsed statements. */
  method RegisterStatements(config: NginxConfig, dispatcher: Dispatcher, port: int,
                            ghost tree: seq<Stmt>, ghost nodes: set<object>)
    returns (outcome: Outcome, port': int)
    requires Holds(config.statements, tree, nodes) && dispatcher !in nodes && AllLegible(tree)
    modifies dispatcher
    ensures outcome == Verdict(tree)
    ensures outcome == Accepted ==>
              dispatcher.routes == Register(old(dispatcher.routes), tree) && port' == PortOf(port, tree)
  {
    hide Verdict, Register, PortOf, Paths, Stoi, Legible;
    assert Verdict([]) == Accepted && Register(dispatcher.routes, []) == dispatcher.routes &&
           PortOf(port, []) == port && Paths([]) == {} by { NoStatements(dispatcher.routes, port); }
    assert tree[..0] == [];
    port' := port;
    var seenPaths: set<string> := {};
    var i := 0;
    while i < |config.statements|
      invariant i <= |tree| == |config.statements|
      invariant Verdict(tree[..i]) == Accepted && seenPaths == Paths(tree[..i])
      invariant dispatcher.routes == Register(old(dispatcher.routes), tree[..i])
      invariant port' == PortOf(port, tree[..i])
    {
      var stmt := config.statements[i];
      assert StmtHolds(stmt, tree[i], nodes);
      OneMoreStatement(tree, i, old(dispatcher.routes), port);
      if |stmt.tokens| == 2 && stmt.tokens[0] == "port" {
        match Stoi(stmt.tokens[1])
        case None =>
          VerdictStays(tree, i + 1);
          return Threw, port';
        case Some(p) =>
          port' := p;
      } else if |stmt.tokens| >= 3 && stmt.tokens[0] == "location" {
        var path, handlerType := stmt.tokens[1], stmt.tokens[2];
        WordNotEmpty(tree, i, 1);
        if path[|path| - 1] == '/' {
          VerdictStays(tree, i + 1);
          return Rejected, port';
        }
        if path in seenPaths {
          VerdictStays(tree, i + 1);
          return Rejected, port';
        }
        seenPaths := seenPaths + {path};
        var args := CollectArgs(stmt, path, tree[i], nodes);
        dispatcher.RegisterRoute(path, Create(handlerType, args));
      }
      i := i + 1;
    }
    assert tree[..i] == tree;
    outcome := Accepted;
  }

  lemma NewConfigHoldsNothing(config: NginxConfig)
    requires config.statements == []
    ensures Holds(config.statements, [], {}) && TreeShaped(config, {} + {config})
  {
  }

  method ParseConfig(input: InputStream, dispatcher: Dispatcher, port: int) returns (outcome: Outcome, port': int)
    requires input.Valid()
    modifies input, dispatcher
    ensures var parsed := ParseText(old(input.Rest()));
            outcome == if parsed.Some? then Verdict(parsed.value) else Rejected
    ensures outcome == Accepted ==>
              var tree := ParseText(old(input.Rest())).value;
              && dispatcher.routes == Register(old(dispatcher.routes), tree)["/" := NOT_FOUND]
              && port' == PortOf(port, tree)
              && BindsLocations(dispatcher.routes, tree)
  {
    hide Verdict, Register, PortOf, Holds, AllLegible, ParseText, BindsLocations;
    var config := new NginxConfig();
    NewConfigHoldsNothing(config);
    var ok, nodes := Parse(input, config, [], {});
    if !ok {
      return Rejected, port;
    }
    ghost var tree := ParseText(old(input.Rest())).value;
    assert [] + tree == tree;
    AcceptedIsLegible(old(input.Rest()));
    outcome, port' := RegisterStatements(config, dispatcher, port, tree, nodes);
    if outcome == Accepted {
      LocationsAreBound(old(dispatcher.routes), tree);
      dispatcher.RegisterRoute("/", Create("NotFoundHandler", ["/"]));
    }
  }

  // ----- What a location is bound to, told from its words and its block -----

  /** The second word of each statement that has one. */
  function SecondWords(block: seq<Stmt>): seq<Option<string>> {
    seq(|block|, i requires 0 <= i < |block| =>
      if |block[i].tokens| >= 2 then Some(block[i].tokens[1]) else None)
  }

  /** Behind the path come the second words of the statements of the block that have one,
      in order and one each; `at` are these statements. */
  ghost predicate IsArgs(args: seq<string>, path: string, block: seq<Stmt>, at: seq<nat>) {
    args != [] && args[0] == path && Picks(SecondWords(block), args[1..], at)
  }

  /** The factory makes the handler the location names, with these arguments. */
  ghost predicate BindsLocation(factory: Factory, s: Stmt)
    requires |s.tokens| >= 3
  {
    && factory.Create? && factory.handler == s.tokens[2]
    && exists at :: IsArgs(factory.args, s.tokens[1], BlockOf(s), at)
  }

  ghost predicate BindsLocations(routes: map<string, Factory>, ss: seq<Stmt>) {
    forall i :: 0 <= i < |ss| && |ss[i].tokens| >= 3 && ss[i].tokens[0] == "location" ==>
      ss[i].tokens[1] in routes && BindsLocation(routes[ss[i].tokens[1]], ss[i])
  }

  lemma BlockArgsAt(path: string, block: seq<Stmt>) returns (at: seq<nat>)
    ensures IsArgs([path] + BlockArgs(block), path, block, at)
  {
    at := PickedArgs(block);
    hide Picks, BlockArgs, SecondWords;
    assert ([path] + BlockArgs(block))[1..] == BlockArgs(block);
  }

  lemma {:induction false} PickedArgs(block: seq<Stmt>) returns (at: seq<nat>)
    ensures Picks(SecondWords(block), BlockArgs(block), at)
    decreases |block|
  {
    hide Picks;
    if block == [] {
      at := [];
      PickNothing<string>();
      assert SecondWords(block) == [];
    } else {
      var n := |block| - 1;
      at := PickedArgs(block[..n]);
      var word := if |block[n].tokens| >= 2 then Some(block[n].tokens[1]) else None;
      PickOneMore(SecondWords(block[..n]), BlockArgs(block[..n]), at, word);
      assert SecondWords(block) == SecondWords(block[..n]) + [word];
      assert word == None ==> BlockArgs(block) == BlockArgs(block[..n]);
      at := if word.Some? then at + [n] else at;
    }
  }

  lemma FactoryBinds(s: Stmt)
    requires IsLocation(s)
    ensures BindsLocation(RouteFactory(s), s)
  {
    var at := BlockArgsAt(s.tokens[1], BlockOf(s));
    hide IsArgs;
    assert RouteFactory(s).args == [s.tokens[1]] + BlockArgs(BlockOf(s));
  }

  lemma LocationsAreBound(routes: map<string, Factory>, ss: seq<Stmt>)
    requires Verdict(ss) == Accepted && AllLegible(ss)
    ensures BindsLocations(Register(routes, ss)["/" := NOT_FOUND], ss)
  {
    hide *;
    forall i | 0 <= i < |ss| && |ss[i].tokens| >= 3 && ss[i].tokens[0] == "location"
      ensures ss[i].tokens[1] in Register(routes, ss)["/" := NOT_FOUND] &&
              BindsLocation(Register(routes, ss)["/" := NOT_FOUND][ss[i].tokens[1]], ss[i])
    {
      LocationIsBound(routes, ss, i);
    }
    AllBound(Register(routes, ss)["/" := NOT_FOUND], ss);
  }

  lemma AllBound(routes: map<string, Factory>, ss: seq<Stmt>)
    requires forall i :: 0 <= i < |ss| && |ss[i].tokens| >= 3 && ss[i].tokens[0] == "location" ==>
               ss[i].tokens[1] in routes && BindsLocation(routes[ss[i].tokens[1]], ss[i])
    ensures BindsLocations(routes, ss)
  {
    hide BindsLocation;
  }

  lemma LocationIsBound(routes: map<string, Factory>, ss: seq<Stmt>, i: nat)
    requires Verdict(ss) == Accepted && AllLegible(ss)
    requires i < |ss| && |ss[i].tokens| >= 3 && ss[i].tokens[0] == "location"
    ensures var r := Register(routes, ss)["/" := NOT_FOUND];
            ss[i].tokens[1] in r && BindsLocation(r[ss[i].tokens[1]], ss[i])
  {
    RegisteredAt(routes, ss, i);
    FactoryBinds(ss[i]);
    PathOf(ss, i);
    LocationPath(ss, ss[i].tokens[1]);
    hide Register, RouteFactory, BindsLocation, Verdict, AllLegible, Paths;
  }

  // ----- Reading the verdict -----

  lemma WordNotEmpty(ss: seq<Stmt>, i: nat, j: nat)
    requires AllLegible(ss) && i < |ss| && j < |ss[i].tokens|
    ensures ss[i].tokens[j] != []
  {
  }

  lemma PathsGrow(ss: seq<Stmt>, n: nat)
    requires n < |ss|
    ensures Paths(ss[..n + 1]) == Paths(ss[..n]) + if IsLocation(ss[n]) then {ss[n].tokens[1]} else {}
  {
  }

  lemma NoStatements(routes: map<string, Factory>, port: int)
    ensures Verdict([]) == Accepted && Register(routes, []) == routes && PortOf(port, []) == port
    ensures Paths([]) == {}
  {
  }

  /** How one more accepted statement changes what the loop keeps track of. */
  lemma OneMoreStatement(ss: seq<Stmt>, n: nat, routes: map<string, Factory>, port: int)
    requires n < |ss| && Verdict(ss[..n]) == Accepted
    ensures Verdict(ss[..n + 1]) == StmtVerdict(ss[n], Paths(ss[..n]))
    ensures var r := Register(routes, ss[..n]);
            Register(routes, ss[..n + 1]) ==
            if IsLocation(ss[n]) then r[ss[n].tokens[1] := RouteFactory(ss[n])] else r
    ensures PortOf(port, ss[..n + 1]) ==
            if IsPort(ss[n]) && Stoi(ss[n].tokens[1]).Some? then Stoi(ss[n].tokens[1]).value
            else PortOf(port, ss[..n])
    ensures Paths(ss[..n + 1]) == Paths(ss[..n]) + if IsLocation(ss[n]) then {ss[n].tokens[1]} else {}
  {
    PathsGrow(ss, n);
    assert ss[..n + 1][..n] == ss[..n] && ss[..n + 1][n] == ss[n];
    hide Paths, Stoi;
  }

  lemma {:induction false} VerdictStays(ss: seq<Stmt>, n: nat)
    requires n <= |ss| && Verdict(ss[..n]) != Accepted
    ensures Verdict(ss) == Verdict(ss[..n])
    decreases |ss|
  {
    if n == |ss| {
      assert ss[..n] == ss;
    } else {
      assert ss[..|ss| - 1][..n] == ss[..n];
      VerdictStays(ss[..|ss| - 1], n);
    }
  }

  /** A port that is a number, a location path that does not end in a slash. */
  predicate Usable(s: Stmt) {
    && (|s.tokens| == 2 && s.tokens[0] == "port" ==> Stoi(s.tokens[1]).Some?)
    && (|s.tokens| >= 3 && s.tokens[0] == "location" ==>
          s.tokens[1] == "" || s.tokens[1][|s.tokens[1]| - 1] != '/')
  }

  predicate SamePath(s: Stmt, t: Stmt) {
    && |s.tokens| >= 3 && s.tokens[0] == "location"
    && |t.tokens| >= 3 && t.tokens[0] == "location"
    && s.tokens[1] == t.tokens[1]
  }

  ghost predicate Routable(ss: seq<Stmt>) {
    && (forall i :: 0 <= i < |ss| ==> Usable(ss[i]))
    && (forall i, j :: 0 <= i < j < |ss| ==> !SamePath(ss[i], ss[j]))
  }

  /** A configuration is accepted exactly when its ports are numbers and its location
      paths are pairwise distinct and do not end in a slash. */
  lemma {:induction false} AcceptedIffRoutable(ss: seq<Stmt>)
    ensures Verdict(ss) == Accepted <==> Routable(ss)
    decreases |ss|
  {
    if ss != [] {
      AcceptedIffRoutable(ss[..|ss| - 1]);
      RoutableStep(ss);
      hide Routable, StmtVerdict, Paths;
    }
  }

  lemma RoutableStep(ss: seq<Stmt>)
    requires ss != []
    ensures var n := |ss| - 1;
            Routable(ss) <==> Routable(ss[..n]) && StmtVerdict(ss[n], Paths(ss[..n])) == Accepted
  {
    var n := |ss| - 1;
    var init, s := ss[..n], ss[n];
    assert ss == init + [s];
    VerdictUsable(init, s);
    hide StmtVerdict, Usable, SamePath;
    if Routable(ss) {
      forall i | 0 <= i < n ensures Usable(init[i]) && !SamePath(init[i], s) {
        assert init[i] == ss[i];
      }
      forall i, j | 0 <= i < j < n ensures !SamePath(init[i], init[j]) {
        assert init[i] == ss[i] && init[j] == ss[j];
      }
      assert Usable(ss[n]);
    }
  }

  lemma VerdictUsable(ss: seq<Stmt>, s: Stmt)
    ensures StmtVerdict(s, Paths(ss)) == Accepted <==>
            Usable(s) && forall i :: 0 <= i < |ss| ==> !SamePath(ss[i], s)
  {
  }

  /** Everything before statement `i` goes, and it is a port that is no int. */
  ghost predicate ThrowsAt(ss: seq<Stmt>, i: nat): (b: bool)
    ensures b ==> i < |ss|
  {
    && i < |ss| && Routable(ss[..i])
    && |ss[i].tokens| == 2 && ss[i].tokens[0] == "port" && Stoi(ss[i].tokens[1]) == None
  }

  /** Everything before statement `i` goes, and it is a location that does not. */
  ghost predicate RejectsAt(ss: seq<Stmt>, i: nat): (b: bool)
    ensures b ==> i < |ss|
  {
    && i < |ss| && Routable(ss[..i])
    && |ss[i].tokens| >= 3 && ss[i].tokens[0] == "location" && !Routable(ss[..i + 1])
  }

  /** One statement more is decided by that statement. */
  lemma VerdictAt(ss: seq<Stmt>, i: nat)
    requires i < |ss|
    ensures ThrowsAt(ss, i) <==> Verdict(ss[..i]) == Accepted && Verdict(ss[..i + 1]) == Threw
    ensures RejectsAt(ss, i) <==> Verdict(ss[..i]) == Accepted && Verdict(ss[..i + 1]) == Rejected
  {
    assert ss[..i + 1][..i] == ss[..i] && ss[..i + 1][i] == ss[i];
    AcceptedIffRoutable(ss[..i]);
    AcceptedIffRoutable(ss[..i + 1]);
    hide Routable, Stoi;
  }

  lemma {:induction false} FindOffender(ss: seq<Stmt>) returns (i: nat)
    requires Verdict(ss) != Accepted
    ensures i < |ss| && Verdict(ss[..i]) == Accepted && Verdict(ss[..i + 1]) == Verdict(ss)
    decreases |ss|
  {
    i := |ss| - 1;
    assert ss[..|ss|] == ss;
    if Verdict(ss[..i]) != Accepted {
      var init := ss[..i];
      i := FindOffender(init);
      assert init[..i] == ss[..i] && init[..i + 1] == ss[..i + 1];
    }
  }

  /** A configuration that is not accepted fails at the first statement that does not
      go: it throws at a port that is no int, and is rejected at a location. */
  lemma FirstOffender(ss: seq<Stmt>)
    ensures Verdict(ss) == Threw <==> exists i :: ThrowsAt(ss, i)
    ensures Verdict(ss) == Rejected <==> exists i :: RejectsAt(ss, i)
  {
    hide *;
    if i: nat :| ThrowsAt(ss, i) {
      VerdictAt(ss, i);
      VerdictStays(ss, i + 1);
    }
    if i: nat :| RejectsAt(ss, i) {
      VerdictAt(ss, i);
      VerdictStays(ss, i + 1);
    }
    if Verdict(ss) != Accepted {
      var i := FindOffender(ss);
      VerdictAt(ss, i);
    }
  }

  /** Without a port statement the port stays. */
  lemma {:induction false} PortStays(port: int, ss: seq<Stmt>)
    requires forall i :: 0 <= i < |ss| ==> !(|ss[i].tokens| == 2 && ss[i].tokens[0] == "port")
    ensures PortOf(port, ss) == port
    decreases |ss|
  {
    hide Stoi;
    if ss != [] {
      PortStays(port, ss[..|ss| - 1]);
    }
  }

  /** The last port statement gives the port. */
  lemma {:induction false} LastPortWins(port: int, ss: seq<Stmt>, i: nat)
    requires i < |ss| && |ss[i].tokens| == 2 && ss[i].tokens[0] == "port" && Stoi(ss[i].tokens[1]).Some?
    requires forall j :: i < j < |ss| ==> !(|ss[j].tokens| == 2 && ss[j].tokens[0] == "port")
    ensures PortOf(port, ss) == Stoi(ss[i].tokens[1]).value
    decreases |ss|
  {
    hide Stoi;
    if i < |ss| - 1 {
      LastPortWins(port, ss[..|ss| - 1], i);
    }
  }

  /** The keys registered are those that were there and the location paths. */
  lemma {:induction false} RegisteredKeys(routes: map<string, Factory>, ss: seq<Stmt>)
    ensures Register(routes, ss).Keys == routes.Keys + Paths(ss)
    decreases |ss|
  {
    if ss != [] {
      var n := |ss| - 1;
      RegisteredKeys(routes, ss[..n]);
      PathsGrow(ss, n);
      assert ss[..n + 1] == ss;
      hide Paths, RouteFactory;
    }
  }

  /** Each location's path is bound to what that location says. */
  lemma {:induction false} RegisteredAt(routes: map<string, Factory>, ss: seq<Stmt>, i: nat)
    requires Verdict(ss) == Accepted && i < |ss| && IsLocation(ss[i])
    ensures ss[i].tokens[1] in Register(routes, ss)
    ensures Register(routes, ss)[ss[i].tokens[1]] == RouteFactory(ss[i])
    decreases |ss|
  {
    NotTwice(ss);
    hide Paths, RouteFactory, Verdict;
    if i < |ss| - 1 {
      RegisteredAt(routes, ss[..|ss| - 1], i);
    }
  }

  lemma PathOf(ss: seq<Stmt>, i: nat)
    requires i < |ss| && IsLocation(ss[i])
    ensures ss[i].tokens[1] in Paths(ss)
  {
  }

  /** The last location has a path of its own. */
  lemma NotTwice(ss: seq<Stmt>)
    requires ss != [] && Verdict(ss) == Accepted
    ensures var n := |ss| - 1;
            && Verdict(ss[..n]) == Accepted
            && (IsLocation(ss[n]) ==>
                  forall i :: 0 <= i < n && IsLocation(ss[i]) ==> ss[i].tokens[1] != ss[n].tokens[1])
  {
    var n := |ss| - 1;
    forall i | 0 <= i < n && IsLocation(ss[i]) ensures ss[i].tokens[1] in Paths(ss[..n]) {
      assert ss[..n][i] == ss[i];
      PathOf(ss[..n], i);
    }
  }

  /** `p` is the path of a location. */
  ghost predicate HasLocation(ss: seq<Stmt>, p: string) {
    exists i :: 0 <= i < |ss| && |ss[i].tokens| >= 3 && ss[i].tokens[0] == "location" && ss[i].tokens[1] == p
  }

  /** Routing of an accepted configuration into an empty table: every path that starts
      with a slash has one longest registered prefix. It is "/", and NotFound answers,
      exactly when no location path is a prefix; otherwise the location with that path
      answers. */
  lemma RoutingLaw(ss: seq<Stmt>, path: string) returns (key: string)
    requires Verdict(ss) == Accepted && AllLegible(ss) && path != [] && path[0] == '/'
    ensures var routes := Register(map[], ss)["/" := NOT_FOUND];
            && (forall k :: k in routes <==> k == "/" || HasLocation(ss, k)) && !HasLocation(ss, "/")
            && Longest(routes.Keys, path, key)
            && (forall k :: Longest(routes.Keys, path, k) ==> k == key)
            && (key == "/" <==> forall p :: HasLocation(ss, p) ==> !(p <= path))
            && routes["/"] == Create("NotFoundHandler", ["/"])
            && (key != "/" ==>
                  exists i :: 0 <= i < |ss| && |ss[i].tokens| >= 3 && ss[i].tokens[0] == "location" &&
                              ss[i].tokens[1] == key && BindsLocation(routes[key], ss[i]))
  {
    hide Verdict, Register, RouteFactory, AllLegible, BindsLocation;
    RegisteredKeys(map[], ss);
    LocationsAreBound(map[], ss);
    forall p ensures HasLocation(ss, p) <==> p in Paths(ss) {
    }
    forall p | p in Paths(ss) ensures p != "/" && (p <= path ==> |p| > 1) {
      LocationPath(ss, p);
    }
    var keys := Paths(ss) + {"/"};
    hide Paths, HasLocation;
    key := FindLongest(keys, path);
    forall k | Longest(keys, path, k) ensures k == key {
      LongestUnique(keys, path, k, key);
    }
    if key != "/" {
      LocationOf(ss, key);
    }
  }

  lemma LocationOf(ss: seq<Stmt>, p: string)
    requires p in Paths(ss)
    ensures exists i :: 0 <= i < |ss| && IsLocation(ss[i]) && ss[i].tokens[1] == p
  {
  }

  lemma LocationPath(ss: seq<Stmt>, p: string)
    requires Verdict(ss) == Accepted && AllLegible(ss) && p in Paths(ss)
    ensures p != [] && !EndsInSlash(p)
  {
    AcceptedIffRoutable(ss);
    hide Verdict, AllLegible;
    var i :| 0 <= i < |ss| && IsLocation(ss[i]) && ss[i].tokens[1] == p;
    WordNotEmpty(ss, i, 1);
    assert Usable(ss[i]);
  }

  lemma {:induction false} FindLongest(keys: set<string>, path: string) returns (key: string)
    requires "/" in keys && "/" <= path
    ensures Longest(keys, path, key)
    decreases keys
  {
    if k :| k in keys && k != "/" {
      var rest := FindLongest(keys - {k}, path);
      key := if k <= path && |k| > |rest| then k else rest;
    } else {
      key := "/";
    }
  }
}

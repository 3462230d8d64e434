/** Parse and ToString over the heap objects of the source. */
module ConfigParser {
  import opened Wrappers
  import opened Streams
  import opened ConfigTokens
  import opened ConfigLexer
  import opened ConfigGrammar
  import opened ConfigPrinter

  class NginxConfigStatement {
    var tokens: seq<string>
    var child: NginxConfig?

    constructor ()
      ensures tokens == [] && child == null
    {
      tokens, child := [], null;
    }

    method ToString(depth: nat, ghost tree: Stmt, ghost nodes: set<object>) returns (output: string)
      requires StmtHolds(this, tree, nodes)
      ensures output == PrintStmt(tree, depth)
      decreases tree
    {
      var blanks := Spaces(depth);
      output := blanks;
      var i := 0;
      while i < |tokens|
        invariant i <= |tokens|
        invariant output == Indent(depth) + JoinWords(tokens[..i])
      {
        assert tokens[..i + 1][..i] == tokens[..i];
        if i != 0 {
          output := output + " ";
        }
        output := output + tokens[i];
        i := i + 1;
      }
      assert tokens[..i] == tokens;
      if child != null {
        var inner := child.ToString(depth + 1, tree.body, nodes);
        output := output + " {\n";
        output := output + inner;
        output := output + blanks;
        output := output + "}";
      } else {
        output := output + ";";
      }
      output := output + "\n";
    }
  }

  class NginxConfig {
    var statements: seq<NginxConfigStatement>

    constructor ()
      ensures statements == []
    {
      statements := [];
    }

    method ToString(depth: nat, ghost tree: seq<Stmt>, ghost nodes: set<object>) returns (output: string)
      requires Holds(statements, tree, nodes)
      ensures output == Print(tree, depth)
      decreases tree
    {
      output := "";
      var i := 0;
      while i < |statements|
        invariant i <= |statements|
        invariant output == Print(tree[..i], depth)
      {
        var text := statements[i].ToString(depth, tree[i], nodes);
        assert tree[..i + 1][..i] == tree[..i];
        output := output + text;
        i := i + 1;
      }
      assert tree[..i] == tree;
    }
  }

  /** std::string(depth * 2, ' ') */
  method Spaces(depth: nat) returns (s: string)
    ensures s == Indent(depth)
  {
    s := seq(depth * 2, _ => ' ');
  }

  // ----- Which tree the heap holds -----

  /** `s` is the root of a heap copy of `t` that lies within `nodes`. */
  ghost predicate StmtHolds(s: NginxConfigStatement, t: Stmt, nodes: set<object>)
    reads nodes
    decreases t
  {
    && s in nodes
    && s.tokens == t.tokens
    && match t
       case Simple(_) => s.child == null
       case Block(_, body) => s.child != null && s.child in nodes && Holds(s.child.statements, body, nodes)
  }

  ghost predicate Holds(ss: seq<NginxConfigStatement>, ts: seq<Stmt>, nodes: set<object>)
    reads nodes
    decreases ts
  {
    && |ss| == |ts|
    && forall i :: 0 <= i < |ss| ==> StmtHolds(ss[i], ts[i], nodes)
  }

  lemma {:induction false} StmtHoldsInMore(s: NginxConfigStatement, t: Stmt, nodes: set<object>, more: set<object>)
    requires StmtHolds(s, t, nodes) && nodes <= more
    ensures StmtHolds(s, t, more)
    decreases t
  {
    if t.Block? {
      HoldsInMore(s.child.statements, t.body, nodes, more);
    }
  }

  lemma {:induction false} HoldsInMore(ss: seq<NginxConfigStatement>, ts: seq<Stmt>,
                                       nodes: set<object>, more: set<object>)
    requires Holds(ss, ts, nodes) && nodes <= more
    ensures Holds(ss, ts, more)
    decreases ts
  {
    forall i | 0 <= i < |ss| ensures StmtHolds(ss[i], ts[i], more) {
      StmtHoldsInMore(ss[i], ts[i], nodes, more);
    }
  }

  /** `c` holds the finished statements `done` within `nodes`; when some words are
      open it also has, last and outside `nodes`, an unfinished statement with those
      words and `child` as its block. */
  ghost predicate FrameHolds(c: NginxConfig, done: seq<Stmt>, open: Option<seq<string>>, child: NginxConfig?,
                             nodes: set<object>)
    reads c, c.statements, nodes
  {
    && c !in nodes
    && |c.statements| == |done| + (if open == None then 0 else 1)
    && Holds(c.statements[..|done|], done, nodes)
    && (open.Some? ==>
          var s := c.statements[|done|];
          s !in nodes && s.tokens == open.value && s.child == child)
  }

  lemma FrameHoldsInMore(c: NginxConfig, done: seq<Stmt>, open: Option<seq<string>>, child: NginxConfig?,
                         nodes: set<object>, more: set<object>)
    requires FrameHolds(c, done, open, child, nodes) && nodes <= more
    requires c !in more && (open.Some? ==> c.statements[|done|] !in more)
    ensures FrameHolds(c, done, open, child, more)
  {
    HoldsInMore(c.statements[..|done|], done, nodes, more);
  }

  function OpenWords(words: seq<string>): Option<seq<string>> {
    if words == [] then None else Some(words)
  }

  /** The stack is the rightmost path of the tree under construction: frame k + 1 is
      the block of the last statement of frame k. `open` is what the innermost frame
      has as its unfinished statement. */
  ghost predicate StackHolds(stack: seq<NginxConfig>, parents: seq<Frame>, done: seq<Stmt>,
                             open: Option<seq<string>>, nodes: set<object>, objs: set<object>)
    reads objs, nodes
  {
    && nodes <= objs
    && |stack| == |parents| + 1
    && (forall k :: 0 <= k < |stack| ==> stack[k] in objs && forall s :: s in stack[k].statements ==> s in objs)
    && (forall i, j :: 0 <= i < j < |stack| ==> stack[i] != stack[j])
    && (forall k :: 0 <= k < |parents| ==>
          FrameHolds(stack[k], parents[k].done, Some(parents[k].words), stack[k + 1], nodes))
    && FrameHolds(stack[|stack| - 1], done, open, null, nodes)
  }

  ghost predicate MachineHolds(stack: seq<NginxConfig>, m: Machine, nodes: set<object>, objs: set<object>)
    reads objs, nodes
  {
    StackHolds(stack, m.parents, m.done, OpenWords(m.words), nodes, objs)
  }

  /** No statement stands in two places, no block belongs to two statements, and the
      root belongs to none. */
  ghost predicate TreeShaped(root: NginxConfig, objs: set<object>)
    reads objs
  {
    && (forall c: NginxConfig, i :: c in objs && 0 <= i < |c.statements| ==> c.statements[i] in objs)
    && (forall c: NginxConfig, d: NginxConfig, i, j ::
          c in objs && d in objs && 0 <= i < |c.statements| && 0 <= j < |d.statements| &&
          c.statements[i] == d.statements[j]
          ==> c == d && i == j)
    && (forall s: NginxConfigStatement :: s in objs && s.child != null ==> s.child in objs && s.child != root)
    && (forall s: NginxConfigStatement, t: NginxConfigStatement ::
          s in objs && t in objs && s.child != null && s.child == t.child ==> s == t)
  }

  /** The last statement of `c` exists, has words, and has `child` as its block. */
  ghost predicate EndsIn(c: NginxConfig, child: NginxConfig?)
    reads c, c.statements
  {
    var ss := c.statements;
    ss != [] && ss[|ss| - 1].tokens != [] && ss[|ss| - 1].child == child
  }

  /** Each block on the stack is the block of the last statement of the one below it;
      behind a word the top block has a last statement, with words and without a block. */
  lemma RightmostPath(stack: seq<NginxConfig>, before: seq<Stmt>, m: Machine, nodes: set<object>, objs: set<object>)
    requires MachineHolds(stack, Behind(before, m), nodes, objs) && Inv(m)
    ensures stack != [] && forall k :: 0 <= k < |stack| - 1 ==> EndsIn(stack[k], stack[k + 1])
    ensures IsWord(m.last) ==> EndsIn(stack[|stack| - 1], null)
  {
    forall k | 0 <= k < |stack| - 1 ensures EndsIn(stack[k], stack[k + 1]) {
      assert FrameInv(m.parents[k]);
      var f := Behind(before, m).parents[k];
      assert FrameHolds(stack[k], f.done, Some(f.words), stack[k + 1], nodes);
    }
  }

  // ----- The steps of Parse -----

  /** statements_.emplace_back(new NginxConfigStatement) */
  method StartStatement(stack: seq<NginxConfig>, ghost parents: seq<Frame>, ghost done: seq<Stmt>,
                        ghost nodes: set<object>, ghost objs: set<object>)
    returns (ghost objs': set<object>)
    requires StackHolds(stack, parents, done, None, nodes, objs) && TreeShaped(stack[0], objs)
    modifies objs - nodes
    ensures objs <= objs' && fresh(objs' - objs)
    ensures StackHolds(stack, parents, done, Some([]), nodes, objs') && TreeShaped(stack[0], objs')
  {
    var top := stack[|stack| - 1];
    var s := new NginxConfigStatement();
    top.statements := top.statements + [s];
    objs' := objs + {s};
  }

  /** statements_.back()->tokens_.push_back(token) */
  method AddWord(stack: seq<NginxConfig>, word: string, ghost parents: seq<Frame>, ghost done: seq<Stmt>,
                 ghost words: seq<string>, ghost nodes: set<object>, ghost objs: set<object>)
    requires StackHolds(stack, parents, done, Some(words), nodes, objs) && TreeShaped(stack[0], objs)
    modifies objs - nodes
    ensures StackHolds(stack, parents, done, Some(words + [word]), nodes, objs) && TreeShaped(stack[0], objs)
  {
    var statements := stack[|stack| - 1].statements;
    var back := statements[|statements| - 1];
    back.tokens := back.tokens + [word];
  }

  /** statements_.back()->child_block_.reset(new NginxConfig), and onto the stack. */
  method OpenBlock(stack: seq<NginxConfig>, ghost parents: seq<Frame>, ghost done: seq<Stmt>,
                   ghost words: seq<string>, ghost nodes: set<object>, ghost objs: set<object>)
    returns (stack': seq<NginxConfig>, ghost objs': set<object>)
    requires StackHolds(stack, parents, done, Some(words), nodes, objs) && TreeShaped(stack[0], objs)
    modifies objs - nodes
    ensures objs <= objs' && fresh(objs' - objs)
    ensures StackHolds(stack', parents + [Frame(done, words)], [], None, nodes, objs')
    ensures TreeShaped(stack'[0], objs') && stack'[0] == stack[0]
  {
    var statements := stack[|stack| - 1].statements;
    var back := statements[|statements| - 1];
    var block := new NginxConfig();
    back.child := block;
    stack' := stack + [block];
    objs' := objs + {block};
  }

  /** A ';' finishes the open statement. */
  lemma EndStatement(stack: seq<NginxConfig>, parents: seq<Frame>, done: seq<Stmt>, words: seq<string>,
                     nodes: set<object>, objs: set<object>)
    returns (nodes': set<object>)
    requires StackHolds(stack, parents, done, Some(words), nodes, objs)
    ensures nodes <= nodes' <= objs
    ensures StackHolds(stack, parents, done + [Simple(words)], None, nodes', objs)
  {
    var top := stack[|stack| - 1];
    nodes' := nodes + {top.statements[|done|]};
    HoldsInMore(top.statements[..|done|], done, nodes, nodes');
    assert StmtHolds(top.statements[|done|], Simple(words), nodes');
    assert top.statements[..|done| + 1] == top.statements;
    forall k | 0 <= k < |parents|
      ensures FrameHolds(stack[k], parents[k].done, Some(parents[k].words), stack[k + 1], nodes')
    {
      assert FrameHolds(stack[k], parents[k].done, Some(parents[k].words), stack[k + 1], nodes);
      FrameHoldsInMore(stack[k], parents[k].done, Some(parents[k].words), stack[k + 1], nodes, nodes');
    }
  }

  /** A '}' finishes the innermost block and the statement it belongs to. */
  lemma CloseBlock(stack: seq<NginxConfig>, parents: seq<Frame>, done: seq<Stmt>,
                   nodes: set<object>, objs: set<object>)
    returns (nodes': set<object>)
    requires StackHolds(stack, parents, done, None, nodes, objs) && parents != []
    ensures nodes <= nodes' <= objs
    ensures var n := |parents| - 1;
            StackHolds(stack[..n + 1], parents[..n], parents[n].done + [Block(parents[n].words, done)],
                       None, nodes', objs)
  {
    var n := |parents| - 1;
    var f, outer, inner := parents[n], stack[n], stack[n + 1];
    var back := outer.statements[|f.done|];
    nodes' := nodes + {back, inner};
    HoldsInMore(outer.statements[..|f.done|], f.done, nodes, nodes');
    HoldsInMore(inner.statements[..|done|], done, nodes, nodes');
    assert inner.statements[..|done|] == inner.statements;
    assert StmtHolds(back, Block(f.words, done), nodes');
    forall k | 0 <= k < n
      ensures FrameHolds(stack[k], parents[k].done, Some(parents[k].words), stack[k + 1], nodes')
    {
      assert FrameHolds(stack[k], parents[k].done, Some(parents[k].words), stack[k + 1], nodes);
      FrameHoldsInMore(stack[k], parents[k].done, Some(parents[k].words), stack[k + 1], nodes, nodes');
    }
  }

  // ----- Parse -----

  /** What Parse will answer in state `m` with `s` unread. */
  function Remaining(m: Machine, s: string): Option<seq<Stmt>> {
    match Tokenize(s)
    case None => None
    case Some(ts) => Result(Run(m, ts))
  }

  lemma RemainingStep(m: Machine, s: string)
    ensures var l := NextToken(s);
            Remaining(m, s) ==
            match l.kind
            case Error => None
            case Eof => Result(Some(m))
            case Comment => Remaining(m, l.rest)
            case _ => (match Step(m, Token(l.kind, l.text))
                       case None => None
                       case Some(m') => Remaining(m', l.rest))
  {
  }

  /** The token of a call that is neither a comment, an error nor the end. */
  lemma NextTokenIsToken(s: string)
    ensures var l := NextToken(s);
            l.kind !in {Eof, Error, Comment} ==> IsToken(Token(l.kind, l.text)) && WellKinded(Token(l.kind, l.text))
  {
    if s != [] && IsWhiteSpace(s[0]) {
      NextTokenIsToken(s[1..]);
    } else if s != [] && Scan(s).kind !in {Eof, Error, Comment} {
      ScanSound(s);
    }
  }

  /** The test at the end of the text is the machine's, except that a text without
      tokens fails on an object that has statements; and the root holds its result. */
  lemma Finished(stack: seq<NginxConfig>, before: seq<Stmt>, m: Machine, nodes: set<object>, objs: set<object>)
    requires MachineHolds(stack, Behind(before, m), nodes, objs) && Inv(m)
    ensures stack != []
    ensures var ok := |stack| == 1 && (m.last == StatementEnd || m.last == EndBlock ||
                                       (m.last == Start && stack[0].statements == []));
            && ok == Accepts(before, Result(Some(m)))
            && (ok ==> Holds(stack[0].statements, before + Result(Some(m)).value, objs - {stack[0]}))
  {
    if Accepting(m) {
      var ss, all := stack[0].statements, before + m.done;
      assert ss[..|all|] == ss;
      HoldsInMore(ss, all, nodes, objs - {stack[0]});
    }
  }

  /** An object that has statements accepts no text without any. */
  predicate Accepts(before: seq<Stmt>, tree: Option<seq<Stmt>>): (ok: bool)
    ensures ok <==> tree.Some? && (before == [] || tree.value != [])
  {
    tree.Some? && (before != [] ==> tree.value != [])
  }

  lemma StartOfParse(config: NginxConfig, before: seq<Stmt>, nodes: set<object>, s: string)
    requires Holds(config.statements, before, nodes) && config !in nodes && TreeShaped(config, nodes + {config})
    ensures MachineHolds([config], Behind(before, INITIAL), nodes, nodes + {config})
    ensures Remaining(INITIAL, s) == ParseText(s) && Inv(INITIAL)
    ensures INITIAL.last == Start
  {
    assert before + [] == before;
    assert config.statements[..|before|] == config.statements;
  }

  lemma BehindAligned(before: seq<Stmt>, m: Machine)
    requires Inv(m)
    ensures Aligned(Behind(before, m)) && Behind(before, m).last == m.last
  {
  }

  lemma StackSize(stack: seq<NginxConfig>, m: Machine, nodes: set<object>, objs: set<object>)
    requires MachineHolds(stack, m, nodes, objs)
    ensures |stack| == |m.parents| + 1
  {
  }

  lemma OpenIffWord(m: Machine)
    requires Aligned(m)
    ensures OpenWords(m.words) == if IsWord(m.last) then Some(m.words) else None
    ensures IsWord(m.last) || StartsStatement(m.last)
    ensures m.words == [] || IsWord(m.last)
  {
  }

  /** The switch of Parse on one token that is neither comment, end nor error. */
  method Switch(stack: seq<NginxConfig>, last: TokenKind, kind: TokenKind, text: string,
                ghost m: Machine, ghost nodes: set<object>, ghost objs: set<object>)
    returns (ok: bool, stack': seq<NginxConfig>, ghost nodes': set<object>, ghost objs': set<object>)
    requires MachineHolds(stack, m, nodes, objs) && TreeShaped(stack[0], objs)
    requires Aligned(m) && last == m.last && WellKinded(Token(kind, text))
    modifies objs - nodes
    ensures ok == Step(m, Token(kind, text)).Some?
    ensures objs <= objs' && fresh(objs' - objs)
    ensures ok ==> nodes <= nodes' <= objs'
    ensures stack' != [] && stack'[0] == stack[0] && TreeShaped(stack[0], objs')
    ensures ok ==> MachineHolds(stack', Step(m, Token(kind, text)).value, nodes', objs')
  {
    OpenIffWord(m);
    StackSize(stack, m, nodes, objs);
    hide TreeShaped, StackHolds, Aligned, WellKinded;
    stack', nodes', objs' := stack, nodes, objs;
    ok := true;
    match kind
    case Normal | Quoted =>
      if last == Start || last == StatementEnd || last == StartBlock || last == EndBlock {
        objs' := StartStatement(stack, m.parents, m.done, nodes, objs);
      }
      AddWord(stack, text, m.parents, m.done, m.words, nodes, objs');
      assert StartsStatement(last) ==> m.words + [text] == [text];
    case StatementEnd =>
      if last != Normal && last != Quoted {
        return false, stack, nodes, objs;
      }
      nodes' := EndStatement(stack, m.parents, m.done, m.words, nodes, objs);
    case StartBlock =>
      if last != Normal {
        return false, stack, nodes, objs;
      }
      stack', objs' := OpenBlock(stack, m.parents, m.done, m.words, nodes, objs);
    case EndBlock =>
      if |stack| == 1 {
        return false, stack, nodes, objs;
      }
      if last != StatementEnd && last != EndBlock && last != StartBlock {
        return false, stack, nodes, objs;
      }
      nodes' := CloseBlock(stack, m.parents, m.done, nodes, objs);
      stack' := stack[..|stack| - 1];
    case _ =>
      return false, stack, nodes, objs;
  }

  /** Parse succeeds exactly on the texts of the configuration language; the object
      then holds what it held before followed by the text's tree, unshared, and
      everything else it made is new. */
  method Parse(input: InputStream, config: NginxConfig, ghost before: seq<Stmt>, ghost held: set<object>)
    returns (ok: bool, ghost nodes: set<object>)
    requires input.Valid() && input !in held && config !in held
    requires Holds(config.statements, before, held) && TreeShaped(config, held + {config})
    modifies input, config
    ensures input.Valid()
    ensures ok <==> ParseText(old(input.Rest())).Some? && (before == [] || ParseText(old(input.Rest())).value != [])
    ensures held <= nodes && fresh(nodes - held)
    ensures ok ==> Holds(config.statements, before + ParseText(old(input.Rest())).value, nodes)
    ensures ok ==> TreeShaped(config, nodes + {config})
  {
    hide *;
    StartOfParse(config, before, held, input.Rest());
    var stack := [config];
    var last := Start;
    ghost var all := ParseText(input.Rest());
    ghost var m := INITIAL;
    ghost var closed, objs := held, held + {config};
    nodes := held;
    while true
      invariant input.Valid() && input !in objs
      invariant Remaining(m, input.Rest()) == all
      invariant Inv(m) && last == m.last
      invariant config in objs && held <= closed <= objs && fresh(objs - held - {config})
      invariant stack != [] && stack[0] == config
      invariant MachineHolds(stack, Behind(before, m), closed, objs) && TreeShaped(config, objs)
      decreases |input.Rest()|
    {
      RemainingStep(m, input.Rest());
      NextTokenIsToken(input.Rest());
      var kind, text := ParseToken(input);
      if kind == Error {
        return false, held;
      }
      if kind == Comment {
        continue;
      }
      if kind == Eof {
        Finished(stack, before, m, closed, objs);
        if |stack| != 1 {
          return false, held;
        }
        ok := last == StatementEnd || last == EndBlock ||
              (last == Start && stack[0].statements == []);
        assert objs - {config} + {config} == objs;
        return ok, objs - {config};
      }
      ghost var step := Step(m, Token(kind, text));
      StepBehind(before, m, Token(kind, text));
      BehindAligned(before, m);
      if step.Some? {
        StepKeepsInv(m, Token(kind, text));
      }
      ok, stack, closed, objs := Switch(stack, last, kind, text, Behind(before, m), closed, objs);
      if !ok {
        return false, held;
      }
      m := step.value;
      last := kind;
    }
  }
}

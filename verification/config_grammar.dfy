/** Configuration trees, the grammar they follow, and the explicit-stack machine
    that Parse runs over the tokens. */
module ConfigGrammar {
  import opened Wrappers
  import opened ConfigTokens

  /** A statement: its words, and for a block the statements inside it. */
  datatype Stmt =
    | Simple(tokens: seq<string>)
    | Block(tokens: seq<string>, body: seq<Stmt>)

  /** The kind of a word is visible in its first character. */
  function KindOf(word: string): TokenKind {
    if word != [] && IsQuote(word[0]) then Quoted else Normal
  }

  function WordToken(word: string): Token { Token(KindOf(word), word) }

  const OPEN := Token(StartBlock, "{")
  const CLOSE := Token(EndBlock, "}")
  const END := Token(StatementEnd, ";")

  /** A token whose kind agrees with its text, as the lexer's tokens all do. */
  predicate WellKinded(t: Token) {
    t == WordToken(t.text) || t in {OPEN, CLOSE, END}
  }

  // ----- The grammar: config ::= stmt*, stmt ::= word+ ';' | word* normal '{' stmt* '}' -----

  predicate EndsNormal(words: seq<string>) {
    words != [] && KindOf(words[|words| - 1]) == Normal
  }

  predicate WellFormed(s: Stmt)
    decreases s
  {
    && s.tokens != []
    && (s.Block? ==> EndsNormal(s.tokens) && AllWellFormed(s.body))
  }

  predicate AllWellFormed(ss: seq<Stmt>)
    decreases ss
  {
    forall i :: 0 <= i < |ss| ==> WellFormed(ss[i])
  }

  function Words(words: seq<string>): (ts: seq<Token>)
    ensures |ts| == |words|
    ensures forall i :: 0 <= i < |words| ==> ts[i] == WordToken(words[i])
  {
    if words == [] then []
    else Words(words[..|words| - 1]) + [WordToken(words[|words| - 1])]
  }

  /** The token sequence a tree derives. */
  function YieldStmt(s: Stmt): seq<Token>
    decreases s
  {
    match s
    case Simple(words) => Words(words) + [END]
    case Block(words, body) => Words(words) + [OPEN] + Yield(body) + [CLOSE]
  }

  function Yield(ss: seq<Stmt>): seq<Token>
    decreases ss
  {
    if ss == [] then []
    else Yield(ss[..|ss| - 1]) + YieldStmt(ss[|ss| - 1])
  }

  lemma YieldAppend(ss: seq<Stmt>, s: Stmt)
    ensures Yield(ss + [s]) == Yield(ss) + YieldStmt(s)
  {
  }

  // ----- The machine -----

  /** An open block: the statements before it and the words of its own statement. */
  datatype Frame = Frame(done: seq<Stmt>, words: seq<string>)

  /** `parents` are the enclosing open blocks, outermost first. Of the innermost one,
      `done` are the finished statements and `words` the words of the unfinished one. */
  datatype Machine = Machine(parents: seq<Frame>, done: seq<Stmt>, words: seq<string>, last: TokenKind)

  const INITIAL := Machine([], [], [], Start)

  predicate StartsStatement(last: TokenKind) {
    last in {Start, StatementEnd, StartBlock, EndBlock}
  }

  predicate IsWord(k: TokenKind) { k == Normal || k == Quoted }

  function Step(m: Machine, t: Token): Option<Machine> {
    match t.kind
    case Normal | Quoted =>
      var words := if StartsStatement(m.last) then [t.text] else m.words + [t.text];
      Some(m.(words := words, last := t.kind))
    case StatementEnd =>
      if !IsWord(m.last) then None
      else Some(m.(done := m.done + [Simple(m.words)], words := [], last := StatementEnd))
    case StartBlock =>
      if m.last != Normal then None
      else Some(Machine(m.parents + [Frame(m.done, m.words)], [], [], StartBlock))
    case EndBlock =>
      if m.parents == [] || m.last !in {StatementEnd, EndBlock, StartBlock} then None
      else
        var n := |m.parents| - 1;
        var f := m.parents[n];
        Some(Machine(m.parents[..n], f.done + [Block(f.words, m.done)], [], EndBlock))
    case _ => None
  }

  /** The test Parse makes at the end of the text. */
  predicate Accepting(m: Machine) {
    && m.parents == []
    && (m.last in {StatementEnd, EndBlock} || (m.last == Start && m.done == [] && m.words == []))
  }

  function Run(m: Machine, ts: seq<Token>): Option<Machine>
    decreases |ts|
  {
    if ts == [] then Some(m)
    else match Step(m, ts[0])
      case None => None
      case Some(m') => Run(m', ts[1..])
  }

  function Result(m: Option<Machine>): Option<seq<Stmt>> {
    if m.Some? && Accepting(m.value) then Some(m.value.done) else None
  }

  function ParseTokens(ts: seq<Token>): Option<seq<Stmt>> {
    Result(Run(INITIAL, ts))
  }

  function ParseText(s: string): Option<seq<Stmt>> {
    match Tokenize(s)
    case None => None
    case Some(ts) => ParseTokens(ts)
  }

  // ----- Soundness: the machine has read exactly what its state derives -----

  predicate FrameInv(f: Frame) {
    AllWellFormed(f.done) && EndsNormal(f.words)
  }

  /** A statement is open exactly behind a word. */
  predicate Aligned(m: Machine) {
    && (m.words != []) == IsWord(m.last)
    && (IsWord(m.last) || StartsStatement(m.last))
  }

  predicate Inv(m: Machine) {
    && Aligned(m)
    && (m.last == Normal ==> EndsNormal(m.words))
    && (m.last == Start ==> m.parents == [] && m.done == [])
    && (m.last in {StatementEnd, EndBlock} ==> m.done != [])
    && AllWellFormed(m.done)
    && forall i :: 0 <= i < |m.parents| ==> FrameInv(m.parents[i])
  }

  function OpenYield(parents: seq<Frame>): seq<Token> {
    if parents == [] then []
    else
      var n := |parents| - 1;
      OpenYield(parents[..n]) + Yield(parents[n].done) + Words(parents[n].words) + [OPEN]
  }

  function ReadBy(m: Machine): seq<Token> {
    OpenYield(m.parents) + Yield(m.done) + Words(m.words)
  }

  lemma StepKeepsInv(m: Machine, t: Token)
    requires Inv(m) && WellKinded(t) && Step(m, t).Some?
    ensures Inv(Step(m, t).value) && Step(m, t).value.last == t.kind
  {
  }

  lemma StepReads(m: Machine, t: Token)
    requires Inv(m) && WellKinded(t) && Step(m, t).Some?
    ensures ReadBy(Step(m, t).value) == ReadBy(m) + [t]
  {
    match t.kind
    case Normal | Quoted => WordReads(m, t);
    case StatementEnd => YieldAppend(m.done, Simple(m.words));
    case StartBlock => OpenReads(m, t);
    case EndBlock => CloseReads(m, t);
  }

  lemma WordReads(m: Machine, t: Token)
    requires Inv(m) && t == WordToken(t.text) && Step(m, t).Some?
    ensures ReadBy(Step(m, t).value) == ReadBy(m) + [t]
  {
  }

  lemma OpenReads(m: Machine, t: Token)
    requires t == OPEN && Step(m, t).Some?
    ensures ReadBy(Step(m, t).value) == ReadBy(m) + [t]
  {
  }

  lemma CloseReads(m: Machine, t: Token)
    requires t == CLOSE && Step(m, t).Some? && m.words == []
    ensures ReadBy(Step(m, t).value) == ReadBy(m) + [t]
  {
    var n := |m.parents| - 1;
    var f, block := m.parents[n], Block(m.parents[n].words, m.done);
    var outer, done, words, inner := OpenYield(m.parents[..n]), Yield(f.done), Words(f.words), Yield(m.done);
    assert OpenYield(m.parents) == outer + done + words + [OPEN];
    assert Yield(f.done + [block]) == done + (words + [OPEN] + inner + [CLOSE]) by {
      YieldAppend(f.done, block);
    }
    assert Step(m, t).value == Machine(m.parents[..n], f.done + [block], [], EndBlock);
    assert Words([]) == [];
    hide *;
    Associate(outer, done, words + [OPEN] + inner + [CLOSE]);
    assert outer + done + (words + [OPEN] + inner + [CLOSE]) == outer + done + words + [OPEN] + inner + [CLOSE];
  }

  lemma {:induction false} RunReads(m: Machine, ts: seq<Token>)
    requires Inv(m) && (forall t :: t in ts ==> WellKinded(t)) && Run(m, ts).Some?
    ensures Inv(Run(m, ts).value)
    ensures ReadBy(Run(m, ts).value) == ReadBy(m) + ts
    decreases |ts|
  {
    hide ReadBy, Inv, Step, WellKinded;
    if ts == [] {
      assert ReadBy(m) + [] == ReadBy(m);
    } else {
      StepKeepsInv(m, ts[0]);
      StepReads(m, ts[0]);
      RunReads(Step(m, ts[0]).value, ts[1..]);
      MoveFirst(ReadBy(m), ts);
    }
  }

  // ----- Completeness: the machine gets through everything a tree derives -----

  lemma {:induction false} RunConcat(m: Machine, a: seq<Token>, b: seq<Token>)
    requires Run(m, a).Some?
    ensures Run(m, a + b) == Run(Run(m, a).value, b)
    decreases |a|
  {
    if a == [] {
      assert a + b == b;
    } else {
      RunConcat(Step(m, a[0]).value, a[1..], b);
      assert (a + b)[1..] == a[1..] + b;
    }
  }

  /** One more token at the end of a run. */
  lemma RunThenStep(m: Machine, a: seq<Token>, t: Token)
    requires Run(m, a).Some?
    ensures Run(m, a + [t]) == Step(Run(m, a).value, t)
  {
    RunConcat(m, a, [t]);
  }

  lemma {:induction false} RunWords(m: Machine, words: seq<string>)
    requires words != [] && StartsStatement(m.last)
    ensures Run(m, Words(words)) == Some(m.(words := words, last := KindOf(words[|words| - 1])))
    decreases |words|
  {
    var n := |words| - 1;
    if n > 0 {
      RunWords(m, words[..n]);
    }
    RunThenStep(m, Words(words[..n]), WordToken(words[n]));
    assert words == words[..n] + [words[n]];
  }

  function LastKind(ss: seq<Stmt>, before: TokenKind): TokenKind {
    if ss == [] then before else if ss[|ss| - 1].Simple? then StatementEnd else EndBlock
  }

  lemma {:induction false} RunStmt(m: Machine, s: Stmt)
    requires WellFormed(s) && StartsStatement(m.last) && m.words == []
    ensures Run(m, YieldStmt(s)) == Some(m.(done := m.done + [s], last := LastKind([s], Start)))
    decreases s
  {
    RunWords(m, s.tokens);
    var w := Run(m, Words(s.tokens)).value;
    match s
    case Simple(words) =>
      RunThenStep(m, Words(words), END);
    case Block(words, body) =>
      RunThenStep(m, Words(words), OPEN);
      var inside := Step(w, OPEN).value;
      RunAll(inside, body);
      RunConcat(m, Words(words) + [OPEN], Yield(body));
      RunThenStep(m, Words(words) + [OPEN] + Yield(body), CLOSE);
      assert inside.parents[..|m.parents|] == m.parents;
      assert [] + body == body;
  }

  lemma {:induction false} RunAll(m: Machine, ss: seq<Stmt>)
    requires AllWellFormed(ss) && StartsStatement(m.last) && m.words == []
    ensures Run(m, Yield(ss)) == Some(m.(done := m.done + ss, last := LastKind(ss, m.last)))
    decreases ss
  {
    hide YieldStmt, WellFormed;
    if ss == [] {
      assert m.done + [] == m.done;
    } else {
      var n := |ss| - 1;
      RunAll(m, ss[..n]);
      RunConcat(m, Yield(ss[..n]), YieldStmt(ss[n]));
      RunStmt(Run(m, Yield(ss[..n])).value, ss[n]);
      Associate(m.done, ss[..n], [ss[n]]);
      assert ss[..n] + [ss[n]] == ss;
    }
  }

  // ----- The machine decides the grammar -----

  /** Parse accepts a token sequence with a tree exactly when that tree derives it. */
  lemma ParseTokensIffDerived(ts: seq<Token>, tree: seq<Stmt>)
    requires forall t :: t in ts ==> WellKinded(t)
    ensures ParseTokens(ts) == Some(tree) <==> AllWellFormed(tree) && Yield(tree) == ts
  {
    hide Inv, AllWellFormed, Step, Run, Yield;
    assert ReadBy(INITIAL) == [] && Inv(INITIAL) by { InitialReads(); }
    if ParseTokens(ts).Some? {
      RunReads(INITIAL, ts);
      AcceptedReads(Run(INITIAL, ts).value);
    }
    if AllWellFormed(tree) {
      RunAll(INITIAL, tree);
      assert [] + tree == tree;
    }
  }

  lemma InitialReads()
    ensures Inv(INITIAL) && ReadBy(INITIAL) == []
  {
  }

  lemma AcceptedReads(m: Machine)
    requires Inv(m) && Accepting(m)
    ensures ReadBy(m) == Yield(m.done) && AllWellFormed(m.done)
  {
  }

  lemma YieldIsWellKinded(ss: seq<Stmt>)
    ensures forall t :: t in Yield(ss) ==> WellKinded(t)
    decreases ss
  {
    if ss != [] {
      var n := |ss| - 1;
      YieldIsWellKinded(ss[..n]);
      match ss[n]
      case Simple(_) =>
      case Block(_, body) => YieldIsWellKinded(body);
    }
  }

  /** A token sequence has at most one derivation. */
  lemma DerivationUnique(a: seq<Stmt>, b: seq<Stmt>)
    requires AllWellFormed(a) && AllWellFormed(b) && Yield(a) == Yield(b)
    ensures a == b
  {
    YieldIsWellKinded(a);
    ParseTokensIffDerived(Yield(a), a);
    ParseTokensIffDerived(Yield(a), b);
  }

  // ----- A configuration that already has statements -----

  /** `m` with `before` in front of the statements it has read. */
  function Behind(before: seq<Stmt>, m: Machine): Machine {
    if m.parents == [] then m.(done := before + m.done)
    else m.(parents := [m.parents[0].(done := before + m.parents[0].done)] + m.parents[1..])
  }

  /** No step looks at them. */
  lemma StepBehind(before: seq<Stmt>, m: Machine, t: Token)
    ensures Step(Behind(before, m), t) ==
            match Step(m, t) case None => None case Some(m') => Some(Behind(before, m'))
  {
    match t.kind
    case StatementEnd =>
      if m.parents == [] {
        Associate(before, m.done, [Simple(m.words)]);
      }
    case StartBlock =>
      if m.last == Normal {
        var b := Behind(before, m);
        assert b.parents + [Frame(b.done, b.words)] == Behind(before, Step(m, t).value).parents;
      }
    case EndBlock =>
      if Step(m, t).Some? {
        CloseBehind(before, m);
      }
    case _ =>
  }

  lemma CloseBehind(before: seq<Stmt>, m: Machine)
    requires Step(m, CLOSE).Some?
    ensures Step(Behind(before, m), CLOSE) == Some(Behind(before, Step(m, CLOSE).value))
  {
    var n := |m.parents| - 1;
    var f, b := m.parents[n], Behind(before, m);
    if n == 0 {
      Associate(before, f.done, [Block(f.words, m.done)]);
    } else {
      assert b.parents[n] == f;
      assert b.parents[..n] == [b.parents[0]] + m.parents[1..n];
      assert m.parents[..n][1..] == m.parents[1..n];
    }
  }

  // ----- The depth of the stack -----

  function Count(ts: seq<Token>, t: Token): nat {
    if ts == [] then 0 else (if ts[0] == t then 1 else 0) + Count(ts[1..], t)
  }

  /** The stack always has one frame more than blocks opened and not yet closed. */
  lemma {:induction false} StackDepth(m: Machine, ts: seq<Token>)
    requires (forall t :: t in ts ==> WellKinded(t)) && Run(m, ts).Some?
    ensures |Run(m, ts).value.parents| + 1 == |m.parents| + 1 + Count(ts, OPEN) - Count(ts, CLOSE)
    decreases |ts|
  {
    if ts != [] {
      var m' := Step(m, ts[0]).value;
      StackDepth(m', ts[1..]);
      assert WellKinded(ts[0]);
    }
  }
}

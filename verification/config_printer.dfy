/** ToString on trees, and the laws that tie it to Parse. */
module ConfigPrinter {
  import opened Wrappers
  import opened ConfigTokens
  import opened ConfigGrammar
  import opened Text

  // ----- Printing -----

  function Indent(depth: nat): (s: string)
    ensures |s| == 2 * depth && forall i :: 0 <= i < |s| ==> s[i] == ' '
  {
    if depth == 0 then "" else Indent(depth - 1) + "  "
  }

  function JoinWords(words: seq<string>): string {
    if words == [] then ""
    else if |words| == 1 then words[0]
    else JoinWords(words[..|words| - 1]) + " " + words[|words| - 1]
  }

  function PrintStmt(s: Stmt, depth: nat): string
    decreases s
  {
    match s
    case Simple(words) => Indent(depth) + JoinWords(words) + ";" + "\n"
    case Block(words, body) =>
      Indent(depth) + JoinWords(words) + " {\n" + Print(body, depth + 1) + Indent(depth) + "}" + "\n"
  }

  function Print(ss: seq<Stmt>, depth: nat): string
    decreases ss
  {
    if ss == [] then ""
    else Print(ss[..|ss| - 1], depth) + PrintStmt(ss[|ss| - 1], depth)
  }

  // ----- Trees whose words are token texts -----

  predicate Legible(word: string) {
    IsToken(WordToken(word))
  }

  predicate StmtLegible(s: Stmt)
    decreases s
  {
    && (forall i :: 0 <= i < |s.tokens| ==> Legible(s.tokens[i]))
    && (s.Block? ==> AllLegible(s.body))
  }

  predicate AllLegible(ss: seq<Stmt>)
    decreases ss
  {
    forall i :: 0 <= i < |ss| ==> StmtLegible(ss[i])
  }

  // ----- Printed text tokenizes to what the tree derives -----

  /** `ts` in front of what the rest of the text tokenizes to. */
  function Before(ts: seq<Token>, rest: Option<seq<Token>>): Option<seq<Token>> {
    match rest case None => None case Some(r) => Some(ts + r)
  }

  lemma BeforeBefore(a: seq<Token>, b: seq<Token>, rest: Option<seq<Token>>)
    ensures Before(a, Before(b, rest)) == Before(a + b, rest)
  {
    if rest.Some? {
      Associate(a, b, rest.value);
    }
  }

  lemma IndentIsGap(depth: nat)
    ensures Gap(Indent(depth))
  {
    SpacesAreGap(Indent(depth));
  }

  lemma {:induction false} SpacesAreGap(s: string)
    requires forall i :: 0 <= i < |s| ==> s[i] == ' '
    ensures Gap(s)
    decreases |s|
  {
    if s != [] {
      SpacesAreGap(s[1..]);
    }
  }

  /** One token between a gap and the rest of the text. */
  lemma TokenThen(g: string, t: Token, rest: string)
    requires Gap(g) && IsToken(t) && Follows(t.kind, rest)
    ensures Tokenize(g + t.text + rest) == Before([t], Tokenize(rest))
  {
    GapTokenThenTokenize(g, t, rest);
  }

  lemma {:induction false} JoinedWordsTokenize(g: string, words: seq<string>, rest: string)
    requires Gap(g) && words != [] && Follows(Quoted, rest)
    requires forall i :: 0 <= i < |words| ==> Legible(words[i])
    ensures Tokenize(g + JoinWords(words) + rest) == Before(Words(words), Tokenize(rest))
    decreases |words|
  {
    hide Tokenize, IsToken, Gap, KindOf;
    var n := |words| - 1;
    var init, w := words[..n], words[n];
    assert IsToken(WordToken(w)) && Gap(" ") by { SpacesAreGap(" "); assert Legible(w); }
    assert Follows(KindOf(w), rest) by { WordFollowed(w, rest); }
    if n == 0 {
      TokenThen(g, WordToken(w), rest);
      assert Words(words) == [WordToken(w)] by { assert Words(init) == []; }
    } else {
      TokenThen(" ", WordToken(w), rest);
      JoinedWordsTokenize(g, init, " " + w + rest);
      BeforeBefore(Words(init), [WordToken(w)], Tokenize(rest));
      assert g + JoinWords(words) + rest == g + JoinWords(init) + (" " + w + rest);
    }
  }

  lemma WordFollowed(w: string, rest: string)
    requires Follows(Quoted, rest)
    ensures Follows(KindOf(w), rest)
  {
  }

  /** A newline is no token. */
  lemma NewlineTokenizes(s: string)
    ensures Tokenize("\n" + s) == Tokenize(s)
  {
  }

  lemma PunctuationTokenizes(g: string, t: Token, rest: string)
    requires Gap(g) && t in {OPEN, CLOSE, END}
    ensures Tokenize(g + t.text + "\n" + rest) == Before([t], Tokenize(rest))
  {
    TokenThen(g, t, "\n" + rest);
    NewlineTokenizes(rest);
    assert g + t.text + ("\n" + rest) == g + t.text + "\n" + rest;
  }

  lemma {:induction false} StmtTokenizes(s: Stmt, depth: nat, rest: string)
    requires WellFormed(s) && StmtLegible(s)
    ensures Tokenize(PrintStmt(s, depth) + rest) == Before(YieldStmt(s), Tokenize(rest))
    decreases s, 0
  {
    hide Tokenize, IsToken, Gap, Indent, Before, Words, JoinWords, Yield, Print, Legible;
    var g := Indent(depth);
    IndentIsGap(depth);
    match s
    case Simple(words) =>
      var tail := ";" + "\n" + rest;
      PunctuationTokenizes("", END, rest) by { SpacesAreGap(""); }
      assert "" + END.text + "\n" + rest == tail;
      JoinedWordsTokenize(g, words, tail);
      BeforeBefore(Words(words), [END], Tokenize(rest));
      assert PrintStmt(s, depth) + rest == g + JoinWords(words) + tail;
    case Block(words, body) =>
      var inner, ending := Print(body, depth + 1), g + "}" + "\n" + rest;
      var tail := " " + "{" + "\n" + (inner + ending);
      PunctuationTokenizes(g, CLOSE, rest);
      AllTokenizes(body, depth + 1, ending);
      PunctuationTokenizes(" ", OPEN, inner + ending) by { SpacesAreGap(" "); }
      JoinedWordsTokenize(g, words, tail);
      BlockTokens(words, body, Tokenize(rest));
      BlockText(g, JoinWords(words), inner, rest);
  }

  lemma BlockTokens(words: seq<string>, body: seq<Stmt>, rest: Option<seq<Token>>)
    ensures Before(Words(words), Before([OPEN], Before(Yield(body), Before([CLOSE], rest))))
         == Before(YieldStmt(Block(words, body)), rest)
  {
    BeforeBefore(Yield(body), [CLOSE], rest);
    BeforeBefore([OPEN], Yield(body) + [CLOSE], rest);
    BeforeBefore(Words(words), [OPEN] + (Yield(body) + [CLOSE]), rest);
    assert Words(words) + ([OPEN] + (Yield(body) + [CLOSE])) == Words(words) + [OPEN] + Yield(body) + [CLOSE];
  }

  lemma BlockText(g: string, words: string, inner: string, rest: string)
    ensures g + words + " {\n" + inner + g + "}" + "\n" + rest
         == g + words + (" " + "{" + "\n" + (inner + (g + "}" + "\n" + rest)))
  {
  }

  lemma {:induction false} AllTokenizes(ss: seq<Stmt>, depth: nat, rest: string)
    requires AllWellFormed(ss) && AllLegible(ss)
    ensures Tokenize(Print(ss, depth) + rest) == Before(Yield(ss), Tokenize(rest))
    decreases ss, 1
  {
    hide Tokenize, WellFormed, StmtLegible, PrintStmt, YieldStmt;
    if ss == [] {
      assert "" + rest == rest;
      assert Tokenize(rest).Some? ==> [] + Tokenize(rest).value == Tokenize(rest).value;
    } else {
      var n := |ss| - 1;
      StmtTokenizes(ss[n], depth, rest);
      AllTokenizes(ss[..n], depth, PrintStmt(ss[n], depth) + rest);
      Associate(Print(ss[..n], depth), PrintStmt(ss[n], depth), rest);
      BeforeBefore(Yield(ss[..n]), YieldStmt(ss[n]), Tokenize(rest));
    }
  }

  // ----- Every accepted tree is well formed and legible -----

  lemma {:induction false} DerivedFromTokensIsLegible(ss: seq<Stmt>)
    requires forall t :: t in Yield(ss) ==> IsToken(t)
    ensures AllLegible(ss)
    decreases ss
  {
    hide IsToken;
    if ss != [] {
      var n := |ss| - 1;
      var s := ss[n];
      assert Yield(ss) == Yield(ss[..n]) + YieldStmt(s);
      DerivedFromTokensIsLegible(ss[..n]);
      forall i | 0 <= i < |s.tokens| ensures Legible(s.tokens[i]) {
        assert YieldStmt(s)[i] == WordToken(s.tokens[i]);
        assert YieldStmt(s)[i] in Yield(ss);
      }
      if s.Block? {
        DerivedFromTokensIsLegible(s.body);
      }
      assert StmtLegible(s);
    }
  }

  lemma {:induction false} SplitIntoTokens(s: string, gaps: seq<string>, ts: seq<Token>)
    requires Splits(s, gaps, ts)
    ensures forall t :: t in ts ==> IsToken(t)
    decreases |ts|
  {
    hide IsToken, Gap, Follows, TailGap;
    if ts != [] {
      SplitIntoTokens(s[|gaps[0] + ts[0].text|..], gaps[1..], ts[1..]);
    }
  }

  lemma TokenizedAreTokens(s: string)
    requires Tokenize(s).Some?
    ensures forall t :: t in Tokenize(s).value ==> IsToken(t) && WellKinded(t)
  {
    var gaps := TokenizedSplits(s);
    SplitIntoTokens(s, gaps, Tokenize(s).value);
  }

  // ----- The laws -----

  /** Parse accepts a text with a tree exactly when the tree is well formed and the
      text is the tree's tokens with blanks and comments in between. */
  lemma ParseTextIffDerived(s: string, tree: seq<Stmt>)
    ensures ParseText(s) == Some(tree) ==> AllWellFormed(tree) && exists gaps :: Splits(s, gaps, Yield(tree))
    ensures AllWellFormed(tree) && (exists gaps :: Splits(s, gaps, Yield(tree))) ==> ParseText(s) == Some(tree)
  {
    hide AllWellFormed, Yield, Splits, Run;
    TokenizeIffSplits(s, Yield(tree));
    if Tokenize(s).Some? {
      TokenizedAreTokens(s);
      ParseTokensIffDerived(Tokenize(s).value, tree);
    }
  }

  lemma AcceptedIsLegible(s: string)
    requires ParseText(s).Some?
    ensures AllWellFormed(ParseText(s).value) && AllLegible(ParseText(s).value)
  {
    hide AllWellFormed, Yield, AllLegible;
    TokenizedAreTokens(s);
    ParseTokensIffDerived(Tokenize(s).value, ParseText(s).value);
    DerivedFromTokensIsLegible(ParseText(s).value);
  }

  /** Printing and parsing back gives the same tree, at every depth, exactly for
      the trees that are well formed and made of token texts. */
  lemma PrintThenParse(tree: seq<Stmt>, depth: nat)
    ensures ParseText(Print(tree, depth)) == Some(tree) <==> AllWellFormed(tree) && AllLegible(tree)
  {
    hide AllWellFormed, Yield, AllLegible, Print, Run;
    var s := Print(tree, depth);
    if AllWellFormed(tree) && AllLegible(tree) {
      AllTokenizes(tree, depth, "");
      assert s + "" == s;
      assert Tokenize(s) == Some(Yield(tree)) by { assert Yield(tree) + [] == Yield(tree); }
      YieldIsWellKinded(tree);
      ParseTokensIffDerived(Yield(tree), tree);
    }
    if ParseText(s) == Some(tree) {
      AcceptedIsLegible(s);
    }
  }

  /** Printing what was parsed parses back to the same tree, so print-after-parse
      is a normal form: applying it twice changes nothing more. */
  lemma PrintIsNormalForm(s: string, depth: nat)
    requires ParseText(s).Some?
    ensures var printed := Print(ParseText(s).value, depth);
            ParseText(printed) == ParseText(s) && Print(ParseText(printed).value, depth) == printed
  {
    AcceptedIsLegible(s);
    PrintThenParse(ParseText(s).value, depth);
  }

  /** Two accepted texts have the same tree exactly when they print alike. */
  lemma PrintSeparatesTrees(a: string, b: string, depth: nat)
    requires ParseText(a).Some? && ParseText(b).Some?
    ensures Print(ParseText(a).value, depth) == Print(ParseText(b).value, depth) <==> ParseText(a) == ParseText(b)
  {
    PrintIsNormalForm(a, depth);
    PrintIsNormalForm(b, depth);
  }

  /** Blanks, and comments behind a blank, put after any token leave the tree alone. */
  lemma InsertingGapsKeepsTree(s: string, gaps: seq<string>, k: nat, ins: string)
    requires Tokenize(s).Some? && Splits(s, gaps, Tokenize(s).value) && k < |Tokenize(s).value|
    requires Gap(ins) && ins != [] && IsWhiteSpace(ins[0])
    ensures var n := EndOfToken(gaps, Tokenize(s).value, k);
            n <= |s| && ParseText(Splice(s, n, ins)) == ParseText(s)
  {
    InsertAfterToken(s, gaps, Tokenize(s).value, k, ins);
  }
}

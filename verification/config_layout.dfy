/** The exact layout of printed configurations, told from the printed tokens alone. */
module ConfigLayout {
  import opened Wrappers
  import opened ConfigTokens
  import opened ConfigGrammar
  import opened ConfigPrinter

  function Blanks(n: int): string {
    if n <= 0 then "" else Blanks(n - 1) + " "
  }

  /** Behind ';', '{' and '}', and at the very front, a new line starts. */
  predicate AtLineStart(pre: seq<Token>) {
    pre == [] || pre[|pre| - 1] in {END, OPEN, CLOSE}
  }

  /** The depth behind the tokens `pre`: one more for each '{', one less for each '}'. */
  function DepthAt(pre: seq<Token>, depth: int): int {
    depth + multiset(pre)[OPEN] - multiset(pre)[CLOSE]
  }

  /** What stands in front of a token on its line: two blanks for each level, where '}'
      is one level further out; inside a line one blank, but nothing before ';'. */
  function LeadOf(pre: seq<Token>, t: Token, depth: int): string {
    if AtLineStart(pre) then Blanks(2 * (DepthAt(pre, depth) - if t == CLOSE then 1 else 0))
    else if t == END then ""
    else " "
  }

  function NewlineAfter(pre: seq<Token>): string {
    if pre != [] && AtLineStart(pre) then "\n" else ""
  }

  /** Everything between the tokens `pre` and the token `t`. */
  function GapOf(pre: seq<Token>, t: Token, depth: int): string {
    NewlineAfter(pre) + LeadOf(pre, t, depth)
  }

  /** The text of the tokens `ts` behind the tokens `pre`. */
  function Layout(pre: seq<Token>, ts: seq<Token>, depth: int): string
    decreases |ts|
  {
    if ts == [] then ""
    else
      var now := pre + [ts[0]];
      LeadOf(pre, ts[0], depth) + ts[0].text + NewlineAfter(now) + Layout(now, ts[1..], depth)
  }

  // ----- Printing follows the layout -----

  lemma LayoutStep(pre: seq<Token>, t: Token, rest: seq<Token>, depth: int)
    ensures Layout(pre, [t] + rest, depth) ==
            LeadOf(pre, t, depth) + t.text + NewlineAfter(pre + [t]) + Layout(pre + [t], rest, depth)
  {
    assert ([t] + rest)[1..] == rest;
  }

  lemma {:induction false} IndentIsBlanks(depth: nat)
    ensures Indent(depth) == Blanks(2 * depth)
  {
    if depth > 0 {
      IndentIsBlanks(depth - 1);
      assert Blanks(2 * depth) == Blanks(2 * depth - 1) + " ";
    }
  }

  lemma WordIsNoBrace(word: string)
    ensures WordToken(word) !in {END, OPEN, CLOSE}
  {
  }

  /** Words open and close nothing. */
  lemma {:induction false} WordsDepth(words: seq<string>)
    ensures multiset(Words(words))[OPEN] == multiset(Words(words))[CLOSE] == 0
    decreases |words|
  {
    if words != [] {
      WordsDepth(words[..|words| - 1]);
      WordIsNoBrace(words[|words| - 1]);
    }
  }

  /** A tree closes what it opens. */
  lemma {:induction false} YieldDepth(ss: seq<Stmt>)
    ensures multiset(Yield(ss))[OPEN] == multiset(Yield(ss))[CLOSE]
    decreases ss, 0
  {
    if ss != [] {
      YieldDepth(ss[..|ss| - 1]);
      StmtDepth(ss[|ss| - 1]);
    }
  }

  lemma {:induction false} StmtDepth(s: Stmt)
    ensures multiset(YieldStmt(s))[OPEN] == multiset(YieldStmt(s))[CLOSE]
    decreases s, 1
  {
    WordsDepth(s.tokens);
    if s.Block? {
      YieldDepth(s.body);
    }
  }

  /** One word and what follows it. */
  lemma LayoutWord(pre: seq<Token>, word: string, rest: seq<Token>, depth: int)
    ensures var lead := if AtLineStart(pre) then Blanks(2 * DepthAt(pre, depth)) else " ";
            Layout(pre, [WordToken(word)] + rest, depth) ==
            lead + word + Layout(pre + [WordToken(word)], rest, depth)
    ensures !AtLineStart(pre + [WordToken(word)])
  {
    WordIsNoBrace(word);
    LayoutStep(pre, WordToken(word), rest, depth);
    hide Layout, Blanks, DepthAt;
  }

  lemma BehindWords(pre: seq<Token>, words: seq<string>, depth: int)
    requires words != []
    ensures !AtLineStart(pre + Words(words)) && DepthAt(pre + Words(words), depth) == DepthAt(pre, depth)
  {
    WordsDepth(words);
    WordIsNoBrace(words[|words| - 1]);
  }

  lemma LastWord(words: seq<string>)
    requires words != []
    ensures var n := |words| - 1;
            && Words(words) == Words(words[..n]) + [WordToken(words[n])]
            && (n == 0 ==> Words(words[..n]) == [] && JoinWords(words) == words[n])
            && (n > 0 ==> JoinWords(words) == JoinWords(words[..n]) + " " + words[n])
  {
  }

  lemma {:induction false} LayoutWords(pre: seq<Token>, words: seq<string>, rest: seq<Token>, depth: int)
    requires words != [] && AtLineStart(pre)
    ensures Layout(pre, Words(words) + rest, depth) ==
            Blanks(2 * DepthAt(pre, depth)) + JoinWords(words) + Layout(pre + Words(words), rest, depth)
    decreases |words|
  {
    hide *;
    var n := |words| - 1;
    var init, w := words[..n], words[n];
    var lead, now := Blanks(2 * DepthAt(pre, depth)), pre + Words(init);
    LastWord(words);
    LayoutWord(now, w, rest, depth);
    Associate(pre, Words(init), [WordToken(w)]);
    Associate(Words(init), [WordToken(w)], rest);
    if n == 0 {
      assert now == pre && [] + [WordToken(w)] == [WordToken(w)];
    } else {
      LayoutWords(pre, init, [WordToken(w)] + rest, depth);
      BehindWords(pre, init, depth);
      JoinText(lead, JoinWords(init), w, Layout(now + [WordToken(w)], rest, depth));
    }
  }

  lemma JoinText(lead: string, words: string, w: string, rest: string)
    ensures lead + words + (" " + w + rest) == lead + (words + " " + w) + rest
  {
  }

  lemma LayoutPunctuation(pre: seq<Token>, t: Token, rest: seq<Token>, depth: int)
    requires t in {END, OPEN, CLOSE}
    ensures Layout(pre, [t] + rest, depth) == LeadOf(pre, t, depth) + t.text + "\n" + Layout(pre + [t], rest, depth)
    ensures AtLineStart(pre + [t])
    ensures DepthAt(pre + [t], depth) == DepthAt(pre, depth) + if t == OPEN then 1 else if t == CLOSE then -1 else 0
  {
    LayoutStep(pre, t, rest, depth);
  }

  /** A printed statement is the layout of its tokens; behind it a new line starts at
      the depth before it. */
  lemma {:induction false} LayoutStmt(pre: seq<Token>, s: Stmt, rest: seq<Token>, depth: int)
    requires WellFormed(s) && AtLineStart(pre) && DepthAt(pre, depth) >= 0
    ensures Layout(pre, YieldStmt(s) + rest, depth) ==
            PrintStmt(s, DepthAt(pre, depth)) + Layout(pre + YieldStmt(s), rest, depth)
    ensures AtLineStart(pre + YieldStmt(s)) && DepthAt(pre + YieldStmt(s), depth) == DepthAt(pre, depth)
    decreases s, 0
  {
    match s
    case Simple(words) => LayoutSimple(pre, words, rest, depth);
    case Block(words, body) =>
      var inside := pre + Words(words) + [OPEN];
      OpenBlockDepth(pre, words, depth);
      LayoutAll(inside, body, [CLOSE] + rest, depth);
      LayoutBlock(pre, words, body, rest, depth);
  }

  lemma LayoutSimple(pre: seq<Token>, words: seq<string>, rest: seq<Token>, depth: int)
    requires words != [] && AtLineStart(pre) && DepthAt(pre, depth) >= 0
    ensures var s := Simple(words);
            && Layout(pre, YieldStmt(s) + rest, depth) ==
               PrintStmt(s, DepthAt(pre, depth)) + Layout(pre + YieldStmt(s), rest, depth)
            && AtLineStart(pre + YieldStmt(s)) && DepthAt(pre + YieldStmt(s), depth) == DepthAt(pre, depth)
  {
    var ws, d := Words(words), DepthAt(pre, depth);
    IndentIsBlanks(d);
    BehindWords(pre, words, depth);
    LayoutWords(pre, words, [END] + rest, depth);
    LayoutPunctuation(pre + ws, END, rest, depth);
    Associate(pre, ws, [END]);
    Associate(ws, [END], rest);
    hide Layout, Words, JoinWords, DepthAt, Blanks, Indent, AtLineStart;
    assert LeadOf(pre + ws, END, depth) == "";
    SimpleText(Blanks(2 * d), JoinWords(words), Layout(pre + YieldStmt(Simple(words)), rest, depth));
  }

  lemma SimpleText(lead: string, words: string, rest: string)
    ensures lead + words + ("" + ";" + "\n" + rest) == lead + words + ";" + "\n" + rest
  {
  }

  lemma OpenBlockDepth(pre: seq<Token>, words: seq<string>, depth: int)
    requires words != []
    ensures var inside := pre + Words(words) + [OPEN];
            AtLineStart(inside) && DepthAt(inside, depth) == DepthAt(pre, depth) + 1
  {
    BehindWords(pre, words, depth);
  }

  /** The end of a block, once its inside is laid out. */
  lemma LayoutBlock(pre: seq<Token>, words: seq<string>, body: seq<Stmt>, rest: seq<Token>, depth: int)
    requires words != [] && AtLineStart(pre) && DepthAt(pre, depth) >= 0
    requires var inside := pre + Words(words) + [OPEN];
             && Layout(inside, Yield(body) + ([CLOSE] + rest), depth) ==
                Print(body, DepthAt(pre, depth) + 1) + Layout(inside + Yield(body), [CLOSE] + rest, depth)
             && AtLineStart(inside + Yield(body)) && DepthAt(inside + Yield(body), depth) == DepthAt(pre, depth) + 1
    ensures var s := Block(words, body);
            && Layout(pre, YieldStmt(s) + rest, depth) ==
               PrintStmt(s, DepthAt(pre, depth)) + Layout(pre + YieldStmt(s), rest, depth)
            && AtLineStart(pre + YieldStmt(s)) && DepthAt(pre + YieldStmt(s), depth) == DepthAt(pre, depth)
  {
    hide Layout, Words, JoinWords, Yield, Print, AllWellFormed, Indent, Blanks;
    var ws, ys, d := Words(words), Yield(body), DepthAt(pre, depth);
    var inside, behind := pre + ws + [OPEN], Layout(pre + ws + [OPEN] + ys + [CLOSE], rest, depth);
    IndentIsBlanks(d);
    BehindWords(pre, words, depth);
    LayoutWords(pre, words, [OPEN] + (ys + ([CLOSE] + rest)), depth);
    LayoutPunctuation(pre + ws, OPEN, ys + ([CLOSE] + rest), depth);
    LayoutPunctuation(inside + ys, CLOSE, rest, depth);
    assert LeadOf(pre + ws, OPEN, depth) == " " && LeadOf(inside + ys, CLOSE, depth) == Blanks(2 * d);
    assert YieldStmt(Block(words, body)) == ws + [OPEN] + ys + [CLOSE];
    assert PrintStmt(Block(words, body), d) ==
           Blanks(2 * d) + JoinWords(words) + " {\n" + Print(body, d + 1) + Blanks(2 * d) + "}" + "\n";
    hide *;
    BlockTokensAt(pre, ws, ys, rest);
    BlockLayoutText(Blanks(2 * d), JoinWords(words), Print(body, d + 1), behind);
  }

  lemma BlockTokensAt(pre: seq<Token>, ws: seq<Token>, ys: seq<Token>, rest: seq<Token>)
    ensures pre + (ws + [OPEN] + ys + [CLOSE]) == pre + ws + [OPEN] + ys + [CLOSE]
    ensures ws + [OPEN] + ys + [CLOSE] + rest == ws + ([OPEN] + (ys + ([CLOSE] + rest)))
  {
  }

  lemma BlockLayoutText(lead: string, words: string, inner: string, rest: string)
    ensures lead + words + (" " + "{" + "\n" + (inner + (lead + "}" + "\n" + rest)))
         == lead + words + " {\n" + inner + lead + "}" + "\n" + rest
  {
    BlockText(lead, words, inner, rest);
  }

  lemma {:induction false} LayoutAll(pre: seq<Token>, ss: seq<Stmt>, rest: seq<Token>, depth: int)
    requires AllWellFormed(ss) && AtLineStart(pre) && DepthAt(pre, depth) >= 0
    ensures Layout(pre, Yield(ss) + rest, depth) ==
            Print(ss, DepthAt(pre, depth)) + Layout(pre + Yield(ss), rest, depth)
    ensures AtLineStart(pre + Yield(ss)) && DepthAt(pre + Yield(ss), depth) == DepthAt(pre, depth)
    decreases ss, 1
  {
    hide Layout, WellFormed, PrintStmt, YieldStmt, DepthAt, AtLineStart;
    if ss == [] {
      assert pre + [] == pre && [] + rest == rest;
    } else {
      var n := |ss| - 1;
      var init, last := Yield(ss[..n]), YieldStmt(ss[n]);
      LayoutAll(pre, ss[..n], last + rest, depth);
      LayoutStmt(pre + init, ss[n], rest, depth);
      Associate(pre, init, last);
      Associate(init, last, rest);
      var d := DepthAt(pre, depth);
      Associate(Print(ss[..n], d), PrintStmt(ss[n], d), Layout(pre + Yield(ss), rest, depth));
    }
  }

  /** What is printed is the layout of the tree's tokens, at every depth. */
  lemma PrintIsLayout(ss: seq<Stmt>, depth: nat)
    requires AllWellFormed(ss)
    ensures Print(ss, depth) == Layout([], Yield(ss), depth)
  {
    hide *;
    LayoutAtEnds([], depth);
    LayoutAtEnds([] + Yield(ss), depth);
    LayoutAll([], ss, [], depth);
    assert Yield(ss) + [] == Yield(ss);
    assert Print(ss, depth) + "" == Print(ss, depth);
  }

  lemma LayoutAtEnds(pre: seq<Token>, depth: int)
    ensures AtLineStart([]) && DepthAt([], depth) == depth && Layout(pre, [], depth) == ""
  {
  }

  // ----- The exact gaps of printed text -----

  /** The gaps around and between the tokens `ts` behind the tokens `pre`. */
  function GapsFrom(pre: seq<Token>, ts: seq<Token>, depth: int): (gaps: seq<string>)
    ensures |gaps| == |ts| + 1
    decreases |ts|
  {
    if ts == [] then [NewlineAfter(pre)]
    else [GapOf(pre, ts[0], depth)] + GapsFrom(pre + [ts[0]], ts[1..], depth)
  }

  lemma {:induction false} GapsAre(pre: seq<Token>, ts: seq<Token>, depth: int)
    ensures forall k :: 0 <= k < |ts| ==> GapsFrom(pre, ts, depth)[k] == GapOf(pre + ts[..k], ts[k], depth)
    ensures GapsFrom(pre, ts, depth)[|ts|] == NewlineAfter(pre + ts)
    decreases |ts|
  {
    hide GapOf, NewlineAfter;
    if ts == [] {
      assert pre + ts == pre;
    } else {
      GapsAre(pre + [ts[0]], ts[1..], depth);
      forall k | 0 <= k < |ts| ensures GapsFrom(pre, ts, depth)[k] == GapOf(pre + ts[..k], ts[k], depth) {
        if k == 0 {
          assert pre + ts[..0] == pre;
        } else {
          assert pre + [ts[0]] + ts[1..][..k - 1] == pre + ts[..k];
        }
      }
      assert pre + [ts[0]] + ts[1..] == pre + ts;
    }
  }

  lemma {:induction false} BlanksAreGap(n: int)
    ensures Gap(Blanks(n)) && Gap("\n" + Blanks(n))
  {
    BlanksAreSpaces(n);
    SpacesAreGap(Blanks(n));
    assert ("\n" + Blanks(n))[1..] == Blanks(n);
  }

  lemma {:induction false} BlanksAreSpaces(n: int)
    ensures |Blanks(n)| == (if n <= 0 then 0 else n) && forall i :: 0 <= i < |Blanks(n)| ==> Blanks(n)[i] == ' '
  {
    if n > 0 {
      BlanksAreSpaces(n - 1);
    }
  }

  lemma GapOfIsGap(pre: seq<Token>, t: Token, depth: int)
    ensures Gap(GapOf(pre, t, depth))
  {
    var lead := Blanks(2 * (DepthAt(pre, depth) - if t == CLOSE then 1 else 0));
    BlanksAreGap(2 * (DepthAt(pre, depth) - if t == CLOSE then 1 else 0));
    SpacesAreGap(" ");
    SpacesAreGap("");
    hide DepthAt, Blanks, Gap;
    if AtLineStart(pre) {
      assert pre == [] ==> GapOf(pre, t, depth) == lead;
    } else {
      assert GapOf(pre, t, depth) == if t == END then "" else " ";
    }
  }

  /** Behind a word comes a blank or a semicolon. */
  lemma LayoutFollows(pre: seq<Token>, t: Token, ts: seq<Token>, depth: int)
    requires WellKinded(t) && (t in {END, OPEN, CLOSE} || (ts != [] && IsToken(ts[0])))
    ensures Follows(t.kind, NewlineAfter(pre + [t]) + Layout(pre + [t], ts, depth))
  {
    hide Tokenize, DepthAt, Blanks, IsQuotedText;
    if t !in {END, OPEN, CLOSE} {
      var now := pre + [t];
      assert !AtLineStart(now) && NewlineAfter(now) == "";
      assert LeadOf(now, ts[0], depth) == if ts[0] == END then "" else " ";
      assert (NewlineAfter(now) + Layout(now, ts, depth))[0] in {' ', ';'};
    }
  }

  lemma SplitsStep(g: string, t: Token, rest: string, gaps: seq<string>, ts: seq<Token>)
    requires Gap(g) && IsToken(t) && Follows(t.kind, rest) && Splits(rest, gaps, ts)
    ensures Splits(g + t.text + rest, [g] + gaps, [t] + ts)
  {
    hide Gap, IsToken, Follows;
    assert (g + t.text + rest)[|g + t.text|..] == rest;
  }

  lemma {:induction false} LayoutSplits(pre: seq<Token>, ts: seq<Token>, depth: int)
    requires forall t :: t in ts ==> IsToken(t) && WellKinded(t)
    requires ts != [] ==> ts[|ts| - 1] in {END, OPEN, CLOSE}
    ensures Splits(NewlineAfter(pre) + Layout(pre, ts, depth), GapsFrom(pre, ts, depth), ts)
    decreases |ts|
  {
    hide Gap, LeadOf, IsToken, Follows, WellKinded, AtLineStart, Splits;
    if ts == [] {
      NewlineEnds(pre, depth);
    } else {
      var t, now := ts[0], pre + [ts[0]];
      var rest := NewlineAfter(now) + Layout(now, ts[1..], depth);
      assert t in ts && (|ts| > 1 ==> ts[1] in ts);
      LayoutSplits(now, ts[1..], depth);
      GapOfIsGap(pre, t, depth);
      LayoutFollows(pre, t, ts[1..], depth);
      SplitsStep(GapOf(pre, t, depth), t, rest, GapsFrom(now, ts[1..], depth), ts[1..]);
      assert [t] + ts[1..] == ts;
      LineText(NewlineAfter(pre), LeadOf(pre, t, depth), t.text, NewlineAfter(now), Layout(now, ts[1..], depth));
    }
  }

  lemma NewlineEnds(pre: seq<Token>, depth: int)
    ensures Splits(NewlineAfter(pre) + Layout(pre, [], depth), [NewlineAfter(pre)], [])
  {
    SpacesAreGap("");
    assert TailGap("") && TailGap("\n");
  }

  lemma LineText(newline: string, lead: string, text: string, next: string, rest: string)
    ensures newline + (lead + text + next + rest) == newline + lead + text + (next + rest)
  {
  }

  lemma YieldEnds(ss: seq<Stmt>)
    ensures Yield(ss) != [] ==> Yield(ss)[|Yield(ss)| - 1] in {END, CLOSE}
  {
  }

  lemma {:induction false} LegibleYield(ss: seq<Stmt>)
    requires AllLegible(ss)
    ensures forall t :: t in Yield(ss) ==> IsToken(t)
    decreases ss
  {
    hide IsToken, Legible;
    if ss != [] {
      var n := |ss| - 1;
      LegibleYield(ss[..n]);
      assert StmtLegible(ss[n]);
      if ss[n].Block? {
        LegibleYield(ss[n].body);
      }
      PunctuationIsToken();
      forall t | t in Words(ss[n].tokens) ensures IsToken(t) {
        var i :| 0 <= i < |ss[n].tokens| && t == Words(ss[n].tokens)[i];
        LegibleIsToken(ss[n].tokens[i]);
      }
    }
  }

  lemma PunctuationIsToken()
    ensures IsToken(END) && IsToken(OPEN) && IsToken(CLOSE)
  {
  }

  lemma LegibleIsToken(word: string)
    requires Legible(word)
    ensures IsToken(WordToken(word))
  {
  }

  /** Inside a line one blank, but none before ';'; behind ';', '{' and '}' a newline; and
      on a new line two blanks for each '{' before without its '}', at '}' for one less. */
  function PrintedGap(ts: seq<Token>, k: nat, depth: nat): string
    requires k <= |ts|
  {
    var level := depth + multiset(ts[..k])[OPEN] - multiset(ts[..k])[CLOSE];
    if k == |ts| then (if k == 0 then "" else "\n")
    else if k == 0 then Blanks(2 * level)
    else if ts[k - 1] in {END, OPEN, CLOSE} then "\n" + Blanks(2 * if ts[k] == CLOSE then level - 1 else level)
    else if ts[k] == END then ""
    else " "
  }

  lemma GapIsPrinted(ts: seq<Token>, k: nat, depth: nat)
    requires k < |ts| && ts[0] != CLOSE
    requires k == 0 ==> ts[0] !in {END, OPEN, CLOSE}
    ensures GapOf(ts[..k], ts[k], depth) == PrintedGap(ts, k, depth)
  {
    hide Blanks;
    var pre := ts[..k];
    if k == 0 {
      assert AtLineStart(pre);
    } else {
      assert pre[|pre| - 1] == ts[k - 1];
    }
  }

  /** These gaps, and no others, stand around and between the tokens of a printed tree. */
  lemma PrintedGaps(ss: seq<Stmt>, depth: nat) returns (gaps: seq<string>)
    requires AllWellFormed(ss) && AllLegible(ss)
    ensures Splits(Print(ss, depth), gaps, Yield(ss))
    ensures |gaps| == |Yield(ss)| + 1
    ensures forall k :: 0 <= k <= |Yield(ss)| ==> gaps[k] == PrintedGap(Yield(ss), k, depth)
  {
    hide *;
    var ts := Yield(ss);
    gaps := GapsFrom([], ts, depth);
    PrintIsLayout(ss, depth);
    LegibleYield(ss);
    YieldIsWellKinded(ss);
    YieldEnds(ss);
    LayoutSplits([], ts, depth);
    GapsAre([], ts, depth);
    FirstIsNoClose(ss);
    NoNewlineFirst(ts, depth);
    assert "" + Layout([], ts, depth) == Layout([], ts, depth);
    assert [] + ts == ts;
    forall k | 0 <= k < |ts| ensures gaps[k] == PrintedGap(ts, k, depth) {
      GapIsPrinted(ts, k, depth);
      assert [] + ts[..k] == ts[..k];
    }
  }

  lemma NoNewlineFirst(ts: seq<Token>, depth: nat)
    requires ts != [] ==> ts[|ts| - 1] in {END, CLOSE}
    ensures NewlineAfter([]) == "" && NewlineAfter(ts) == PrintedGap(ts, |ts|, depth)
  {
  }

  lemma {:induction false} FirstIsNoClose(ss: seq<Stmt>)
    requires AllWellFormed(ss)
    ensures Yield(ss) != [] ==> Yield(ss)[0] !in {END, OPEN, CLOSE}
    decreases |ss|
  {
    if ss != [] {
      var n := |ss| - 1;
      FirstIsNoClose(ss[..n]);
      if n == 0 {
        assert Yield(ss[..0]) == [] && WellFormed(ss[0]);
        assert Yield(ss)[0] == Words(ss[0].tokens)[0];
        WordIsNoBrace(ss[0].tokens[0]);
      } else {
        assert Yield(ss[..n]) != [] by { YieldNotEmpty(ss[..n]); }
      }
    }
  }

  lemma YieldNotEmpty(ss: seq<Stmt>)
    requires ss != []
    ensures Yield(ss) != []
  {
  }
}

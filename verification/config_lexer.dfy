/** The tokens of an nginx-style configuration: what a text splits into, and the
    one-pass function that the character state machine computes. */
module ConfigTokens {
  import opened Wrappers
  import opened Text

  datatype TokenKind =
    | Start | Normal | StartBlock | EndBlock | Comment | StatementEnd | Eof | Error | Quoted

  datatype Token = Token(kind: TokenKind, text: string)

  predicate IsWhiteSpace(c: char) {
    c == ' ' || c == '\t' || c == '\n' || c == '\r'
  }

  predicate IsBlockDelimiter(c: char) {
    c == ';' || c == '{' || c == '}'
  }

  predicate IsQuote(c: char) {
    c == '"' || c == '\''
  }

  predicate EndsLine(c: char) {
    c == '\n' || c == '\r'
  }

  /** A character that ends a token, quoted or not. */
  predicate EndsToken(c: char) {
    IsWhiteSpace(c) || IsBlockDelimiter(c)
  }

  predicate InToken(c: char) { !EndsToken(c) }

  predicate InComment(c: char) { !EndsLine(c) }

  predicate StartsNormal(c: char) {
    InToken(c) && !IsQuote(c) && c != '#'
  }

  // ----- What the texts of tokens and the gaps between them look like -----

  /** The inside of a quoted token: escaped pairs and characters that are
      neither the quote nor a backslash. */
  predicate QuotedBody(s: string, q: char) {
    if s == [] then true
    else if s[0] == '\\' then |s| >= 2 && QuotedBody(s[2..], q)
    else s[0] != q && QuotedBody(s[1..], q)
  }

  predicate IsNormalText(s: string) {
    s != [] && StartsNormal(s[0]) && forall c :: c in s ==> InToken(c)
  }

  predicate IsQuotedText(s: string) {
    |s| >= 2 && IsQuote(s[0]) && s[|s| - 1] == s[0] && QuotedBody(s[1..|s| - 1], s[0])
  }

  predicate IsToken(t: Token) {
    match t.kind
    case Normal => IsNormalText(t.text)
    case Quoted => IsQuotedText(t.text)
    case StartBlock => t.text == "{"
    case EndBlock => t.text == "}"
    case StatementEnd => t.text == ";"
    case _ => false
  }

  /** What must come right after a token of kind `k`: a normal token needs an end
      of token or the end of the text, a quoted one needs an end of token. */
  predicate Follows(k: TokenKind, rest: string) {
    match k
    case Normal => rest == [] || EndsToken(rest[0])
    case Quoted => rest != [] && EndsToken(rest[0])
    case _ => true
  }

  /** White space and comments, each comment closed by its end of line. */
  predicate Gap(g: string)
    decreases |g|
  {
    if g == [] then true
    else if IsWhiteSpace(g[0]) then Gap(g[1..])
    else
      g[0] == '#' &&
      var n := Span(g, InComment);
      n < |g| && Gap(g[n + 1..])
  }

  /** A gap at the end of the text, where the last comment may be left open. */
  predicate TailGap(g: string)
    decreases |g|
  {
    if g == [] then true
    else if IsWhiteSpace(g[0]) then TailGap(g[1..])
    else
      g[0] == '#' &&
      var n := Span(g, InComment);
      n < |g| ==> TailGap(g[n + 1..])
  }

  /** `s` is the token texts of `ts` in order, with `gaps` around and between them. */
  predicate Splits(s: string, gaps: seq<string>, ts: seq<Token>)
    decreases |ts|
  {
    |gaps| == |ts| + 1 &&
    if ts == [] then s == gaps[0] && TailGap(s)
    else
      var head := gaps[0] + ts[0].text;
      && head <= s
      && Gap(gaps[0])
      && IsToken(ts[0])
      && Follows(ts[0].kind, s[|head|..])
      && Splits(s[|head|..], gaps[1..], ts[1..])
  }

  // ----- What tokens look like, told from their characters -----

  /** How many backslashes stand at the end of `s`. */
  function Slashes(s: string): nat {
    if s == [] || s[|s| - 1] != '\\' then 0 else 1 + Slashes(s[..|s| - 1])
  }

  /** One more character in front of backslashes that do not reach back to it. */
  lemma {:induction false} SlashesBehind(c: char, s: string)
    ensures Slashes([c] + s) == if Slashes(s) == |s| && c == '\\' then |s| + 1 else Slashes(s)
    ensures Slashes(s) <= |s|
    decreases |s|
  {
    if s == [] {
      assert ([c] + s)[..0] == [];
    } else {
      var n := |s| - 1;
      SlashesBehind(c, s[..n]);
      assert ([c] + s)[..n + 1] == [c] + s[..n];
    }
  }

  /** An odd number of backslashes in front of it escapes a character. */
  predicate IsEscaped(s: string, i: nat)
    requires i <= |s|
  {
    Slashes(s[..i]) % 2 == 1
  }

  /** Every quote is escaped, and the end is not. */
  predicate QuotesEscaped(s: string, q: char) {
    !IsEscaped(s, |s|) && forall i :: 0 <= i < |s| && s[i] == q ==> IsEscaped(s, i)
  }

  lemma EscapedBehind(s: string, i: nat)
    requires s != [] && s[0] != '\\' && 0 < i <= |s|
    ensures IsEscaped(s, i) == IsEscaped(s[1..], i - 1)
  {
    SlashesBehind(s[0], s[1..][..i - 1]);
    assert s[..i] == [s[0]] + s[1..][..i - 1];
  }

  lemma EscapedBehindPair(s: string, i: nat)
    requires |s| >= 2 && s[0] == '\\' && 1 < i <= |s|
    ensures IsEscaped(s, i) == IsEscaped(s[2..], i - 2)
  {
    var t := s[2..][..i - 2];
    SlashesBehind(s[1], t);
    SlashesBehind(s[0], [s[1]] + t);
    assert s[..i] == [s[0]] + ([s[1]] + t);
  }

  lemma SlashEscapes(s: string)
    requires s != [] && s[0] == '\\'
    ensures IsEscaped(s, 1)
  {
    SlashesBehind(s[0], []);
    assert s[..1] == [s[0]] + [];
  }

  /** The inside of a quoted token: every quote in it is escaped by a backslash that is
      not itself escaped, and its end is not escaped. */
  lemma {:induction false} QuotedBodyIff(s: string, q: char)
    requires q != '\\'
    ensures QuotedBody(s, q) <==> QuotesEscaped(s, q)
    decreases |s|
  {
    if s == [] {
    } else if s[0] != '\\' {
      QuotedBodyIff(s[1..], q);
      assert s[..0] == [];
      forall i | 0 < i <= |s| ensures IsEscaped(s, i) == IsEscaped(s[1..], i - 1) {
        EscapedBehind(s, i);
      }
      ShiftEscaped(s, 1, q);
    } else if |s| == 1 {
      SlashEscapes(s);
    } else {
      QuotedBodyIff(s[2..], q);
      SlashEscapes(s);
      assert QuotedBody(s, q) == QuotedBody(s[2..], q);
      forall i | 1 < i <= |s| ensures IsEscaped(s, i) == IsEscaped(s[2..], i - 2) {
        EscapedBehindPair(s, i);
      }
      ShiftEscaped(s, 2, q);
      hide IsEscaped, QuotedBody;
      assert QuotesEscaped(s, q) <==> QuotesEscaped(s[2..], q);
    }
  }

  lemma ShiftEscaped(s: string, k: nat, q: char)
    requires k <= |s| && forall i :: k <= i <= |s| ==> IsEscaped(s, i) == IsEscaped(s[k..], i - k)
    ensures QuotesEscaped(s[k..], q) <==>
            !IsEscaped(s, |s|) && forall i :: k <= i < |s| && s[i] == q ==> IsEscaped(s, i)
  {
    hide IsEscaped;
    var t := s[k..];
    if QuotesEscaped(t, q) {
      forall i | k <= i < |s| && s[i] == q ensures IsEscaped(s, i) {
        assert t[i - k] == q;
      }
    }
    if !IsEscaped(s, |s|) && forall i :: k <= i < |s| && s[i] == q ==> IsEscaped(s, i) {
      forall i | 0 <= i < |t| && t[i] == q ensures IsEscaped(t, i) {
        assert s[i + k] == q && IsEscaped(s, i + k) == IsEscaped(t, i + k - k);
      }
    }
  }

  /** What is a token: a word without blanks and delimiters that does not start with a
      quote or '#'; a text in quotes of one kind, in which that quote is escaped; and the
      three delimiters. */
  lemma TokenTexts(t: Token)
    ensures IsToken(t) <==>
            match t.kind
            case Normal =>
              && t.text != "" && t.text[0] !in "\"'#"
              && forall i :: 0 <= i < |t.text| ==> t.text[i] !in " \t\n\r;{}"
            case Quoted =>
              && |t.text| >= 2 && t.text[0] in "\"'" && t.text[|t.text| - 1] == t.text[0]
              && QuotesEscaped(t.text[1..|t.text| - 1], t.text[0])
            case StartBlock => t.text == "{"
            case EndBlock => t.text == "}"
            case StatementEnd => t.text == ";"
            case _ => false
  {
    if t.kind == Normal {
      assert forall i :: 0 <= i < |t.text| ==> t.text[i] in t.text;
    } else if t.kind == Quoted && |t.text| >= 2 && IsQuote(t.text[0]) {
      QuotedBodyIff(t.text[1..|t.text| - 1], t.text[0]);
    }
  }

  // ----- Scanning -----

  datatype Lexeme = Lexeme(kind: TokenKind, text: string, rest: string)

  /** How much of `s`, the text after an opening quote `q`, runs up to and
      including the closing one. */
  function CloseQuote(s: string, q: char): (n: Option<nat>)
    ensures n.Some? ==> 1 <= n.value <= |s|
  {
    if s == [] then None
    else if s[0] == '\\' then
      if |s| < 2 then None
      else match CloseQuote(s[2..], q) case None => None case Some(n) => Some(n + 2)
    else if s[0] == q then Some(1)
    else match CloseQuote(s[1..], q) case None => None case Some(n) => Some(n + 1)
  }

  function ScanQuoted(s: string): (l: Lexeme)
    requires s != []
    ensures |l.rest| < |s|
  {
    match CloseQuote(s[1..], s[0])
    case None => Lexeme(Error, "", "")
    case Some(n) =>
      if Follows(Quoted, s[n + 1..]) then Lexeme(Quoted, s[..n + 1], s[n + 1..])
      else Lexeme(Error, "", "")
  }

  function ScanComment(s: string): (l: Lexeme)
    requires s != []
    ensures |l.rest| < |s|
  {
    var n := Span(s, InComment);
    if n == |s| then Lexeme(Eof, "", "") else Lexeme(Comment, "", s[n + 1..])
  }

  /** One token off the front of a text that does not start with white space. */
  function Scan(s: string): (l: Lexeme)
    requires s != [] && !IsWhiteSpace(s[0])
    ensures |l.rest| < |s|
  {
    if s[0] == '{' then Lexeme(StartBlock, "{", s[1..])
    else if s[0] == '}' then Lexeme(EndBlock, "}", s[1..])
    else if s[0] == ';' then Lexeme(StatementEnd, ";", s[1..])
    else if s[0] == '#' then ScanComment(s)
    else if IsQuote(s[0]) then ScanQuoted(s)
    else
      var n := Span(s, InToken);
      Lexeme(Normal, s[..n], s[n..])
  }

  /** The result of one ParseToken call, and what it leaves unread. Every call that
      does not reach the end of the text consumes at least one character. */
  function NextToken(s: string): (l: Lexeme)
    ensures |l.rest| <= |s|
    ensures l.kind != Eof ==> |l.rest| < |s|
  {
    if s == [] then Lexeme(Eof, "", "")
    else if IsWhiteSpace(s[0]) then NextToken(s[1..])
    else Scan(s)
  }

  /** The tokens Parse sees: every call until the end of the text, without the
      comments; None when some call reports an error. */
  function Tokenize(s: string): Option<seq<Token>>
    decreases |s|
  {
    var l := NextToken(s);
    match l.kind
    case Eof => Some([])
    case Error => None
    case Comment => Tokenize(l.rest)
    case _ => Prepend(Token(l.kind, l.text), Tokenize(l.rest))
  }

  function Prepend(t: Token, ts: Option<seq<Token>>): Option<seq<Token>> {
    match ts case None => None case Some(r) => Some([t] + r)
  }

  // ----- The scanner finds exactly the split -----

  lemma {:induction false} CloseQuoteFinds(body: string, q: char, rest: string)
    requires IsQuote(q) && QuotedBody(body, q)
    ensures CloseQuote(body + [q] + rest, q) == Some(|body| + 1)
    decreases |body|
  {
    var s := body + [q] + rest;
    if body != [] {
      var k := if body[0] == '\\' then 2 else 1;
      CloseQuoteFinds(body[k..], q, rest);
      assert s[k..] == body[k..] + [q] + rest;
    }
  }

  lemma {:induction false} CloseQuoteSound(s: string, q: char)
    requires CloseQuote(s, q).Some?
    ensures var n := CloseQuote(s, q).value; s[n - 1] == q && QuotedBody(s[..n - 1], q)
    decreases |s|
  {
    var n := CloseQuote(s, q).value;
    if s[0] == '\\' || s[0] != q {
      var k := if s[0] == '\\' then 2 else 1;
      CloseQuoteSound(s[k..], q);
      assert s[..n - 1][k..] == s[k..][..n - k - 1];
    }
  }

  lemma ScanToken(t: Token, rest: string)
    requires IsToken(t) && Follows(t.kind, rest)
    ensures t.kind !in {Eof, Error, Comment}
    ensures t.text != [] && !IsWhiteSpace(t.text[0])
    ensures Scan(t.text + rest) == Lexeme(t.kind, t.text, rest)
  {
    var s := t.text + rest;
    match t.kind
    case Normal =>
      forall i | 0 <= i < |t.text| ensures InToken(s[i]) {
        assert t.text[i] in t.text;
      }
      SpanIs(s, InToken, |t.text|);
    case Quoted =>
      var q, body := t.text[0], t.text[1..|t.text| - 1];
      assert s[1..] == body + [q] + rest;
      CloseQuoteFinds(body, q, rest);
    case _ =>
  }

  lemma ScanSound(s: string)
    requires s != [] && !IsWhiteSpace(s[0])
    requires Scan(s).kind !in {Eof, Error, Comment}
    ensures var l := Scan(s);
            IsToken(Token(l.kind, l.text)) && s == l.text + l.rest && Follows(l.kind, l.rest)
  {
    hide QuotedBody, CloseQuote;
    if IsQuote(s[0]) {
      ScanQuotedSound(s);
    } else if StartsNormal(s[0]) {
      ScanNormalSound(s);
    }
  }

  lemma ScanNormalSound(s: string)
    requires s != [] && StartsNormal(s[0])
    ensures var n := Span(s, InToken); IsNormalText(s[..n]) && s == s[..n] + s[n..] && Follows(Normal, s[n..])
  {
    assert Span(s, InToken) > 0;
    hide Span;
  }

  lemma ScanQuotedSound(s: string)
    requires s != [] && IsQuote(s[0]) && ScanQuoted(s).kind == Quoted
    ensures var l := ScanQuoted(s);
            IsQuotedText(l.text) && s == l.text + l.rest && Follows(Quoted, l.rest)
  {
    CloseQuoteSound(s[1..], s[0]);
    var n := CloseQuote(s[1..], s[0]).value;
    hide CloseQuote, QuotedBody;
    assert s == s[..n + 1] + s[n + 1..];
    TrimEnds(s, n);
  }

  /** One blank, or one comment with its end of line. */
  predicate GapPiece(g: string) {
    || (|g| == 1 && IsWhiteSpace(g[0]))
    || (g != [] && g[0] == '#' && Span(g, InComment) == |g| - 1)
  }

  lemma PieceThenTokenize(p: string, s: string)
    requires GapPiece(p)
    ensures Tokenize(p + s) == Tokenize(s)
  {
    var t := p + s;
    assert t[|p|..] == s;
    if p[0] == '#' {
      SpanIs(t, InComment, |p| - 1);
      assert NextToken(t) == Lexeme(Comment, "", s);
    } else {
      assert NextToken(t) == NextToken(s);
    }
  }

  /** The first piece of a gap, and the gap that is left. */
  lemma PeelGap(g: string) returns (n: nat)
    requires g != [] && Gap(g)
    ensures 0 < n <= |g| && GapPiece(g[..n]) && Gap(g[n..])
  {
    if IsWhiteSpace(g[0]) {
      n := 1;
    } else {
      n := Span(g, InComment) + 1;
      SpanIs(g[..n], InComment, n - 1);
    }
  }

  lemma {:induction false} GapThenTokenize(g: string, s: string)
    requires Gap(g)
    ensures Tokenize(g + s) == Tokenize(s)
    decreases |g|
  {
    if g == [] {
      assert g + s == s;
    } else {
      var n := PeelGap(g);
      GapThenTokenize(g[n..], s);
      PieceThenTokenize(g[..n], g[n..] + s);
      Regroup(g, n, s);
    }
  }

  lemma TokenizeScanned(u: string, t: Token, s: string)
    requires NextToken(u) == Lexeme(t.kind, t.text, s) && t.kind !in {Eof, Error, Comment}
    ensures Tokenize(u) == Prepend(t, Tokenize(s))
  {
  }

  /** A gap and a token in front of a text put that token in front of its tokens. */
  lemma GapTokenThenTokenize(g: string, t: Token, s: string)
    requires Gap(g) && IsToken(t) && Follows(t.kind, s)
    ensures Tokenize(g + t.text + s) == Prepend(t, Tokenize(s))
  {
    hide Gap, IsToken, Follows, Scan;
    var u := t.text + s;
    GapThenTokenize(g, u);
    assert g + t.text + s == g + u;
    ScanToken(t, s);
    assert NextToken(u) == Scan(u);
    TokenizeScanned(u, t, s);
  }

  lemma {:induction false} TailGapTokenize(g: string)
    requires TailGap(g)
    ensures Tokenize(g) == Some([])
    decreases |g|
  {
    if g != [] {
      var n := Span(g, InComment);
      if IsWhiteSpace(g[0]) {
        TailGapTokenize(g[1..]);
      } else if n < |g| {
        TailGapTokenize(g[n + 1..]);
      }
    }
  }

  lemma {:induction false} SplitTokenizes(s: string, gaps: seq<string>, ts: seq<Token>)
    requires Splits(s, gaps, ts)
    ensures Tokenize(s) == Some(ts)
    decreases |ts|
  {
    hide Tokenize, Gap, TailGap, IsToken, Follows;
    if ts == [] {
      TailGapTokenize(s);
    } else {
      var rest := s[|gaps[0] + ts[0].text|..];
      SplitTokenizes(rest, gaps[1..], ts[1..]);
      assert s == gaps[0] + ts[0].text + rest;
      GapTokenThenTokenize(gaps[0], ts[0], rest);
      assert ts == [ts[0]] + ts[1..];
    }
  }

  lemma PieceThenGap(p: string, g: string)
    requires GapPiece(p)
    ensures Gap(p + g) == Gap(g)
    ensures TailGap(p + g) == TailGap(g)
  {
    assert (p + g)[|p|..] == g;
    if p[0] == '#' {
      SpanIs(p + g, InComment, |p| - 1);
    }
  }

  /** One blank, or a comment: '#', the rest of the line, and one line end. */
  predicate IsPiece(p: string) {
    || (|p| == 1 && p[0] in " \t\n\r")
    || (|p| >= 2 && p[0] == '#' && p[|p| - 1] in "\n\r" && forall i :: 0 <= i < |p| - 1 ==> p[i] !in "\n\r")
  }

  lemma PieceIff(p: string)
    ensures GapPiece(p) <==> IsPiece(p)
  {
    if IsPiece(p) && p[0] == '#' {
      SpanIs(p, InComment, |p| - 1);
    }
  }

  function Concat(ps: seq<string>): string {
    if ps == [] then "" else ps[0] + Concat(ps[1..])
  }

  lemma {:induction false} PiecesOfGap(g: string) returns (ps: seq<string>)
    requires Gap(g)
    ensures Concat(ps) == g && forall i :: 0 <= i < |ps| ==> IsPiece(ps[i])
    decreases |g|
  {
    hide Gap, GapPiece, IsPiece;
    if g == "" {
      ps := [];
    } else {
      var n := PeelGap(g);
      PieceIff(g[..n]);
      var rest := PiecesOfGap(g[n..]);
      ps := [g[..n]] + rest;
      assert g == g[..n] + g[n..];
    }
  }

  lemma {:induction false} GapOfPieces(ps: seq<string>)
    requires forall i :: 0 <= i < |ps| ==> IsPiece(ps[i])
    ensures Gap(Concat(ps))
    decreases |ps|
  {
    hide GapPiece, IsPiece;
    if ps != [] {
      GapOfPieces(ps[1..]);
      PieceIff(ps[0]);
      hide Gap;
      PieceThenGap(ps[0], Concat(ps[1..]));
    }
  }

  /** A gap is any row of blanks and comments. */
  lemma GapTexts(g: string)
    ensures Gap(g) <==> exists ps :: Concat(ps) == g && forall i :: 0 <= i < |ps| ==> IsPiece(ps[i])
  {
    hide *;
    if Gap(g) {
      var ps := PiecesOfGap(g);
    }
    if ps :| Concat(ps) == g && forall i :: 0 <= i < |ps| ==> IsPiece(ps[i]) {
      GapOfPieces(ps);
    }
  }

  /** A word ends before a blank, a delimiter or the end of the text, and a quoted token
      before a blank or a delimiter. */
  lemma FollowsTexts(rest: string)
    ensures Follows(Normal, rest) <==> rest == "" || rest[0] in " \t\n\r;{}"
    ensures Follows(Quoted, rest) <==> rest != "" && rest[0] in " \t\n\r;{}"
  {
  }

  lemma AddGap(p: string, s: string, gaps: seq<string>, ts: seq<Token>) returns (gaps': seq<string>)
    requires GapPiece(p) && Splits(s, gaps, ts)
    ensures Splits(p + s, gaps', ts)
  {
    PieceThenGap(p, gaps[0]);
    gaps' := [p + gaps[0]] + gaps[1..];
    if ts != [] {
      var head, head' := gaps[0] + ts[0].text, gaps'[0] + ts[0].text;
      assert head' == p + head;
      assert (p + s)[|head'|..] == s[|head|..];
      assert gaps'[1..] == gaps[1..];
    }
  }

  lemma AddToken(text: string, kind: TokenKind, s: string, gaps: seq<string>, ts: seq<Token>)
    requires IsToken(Token(kind, text)) && Follows(kind, s) && Splits(s, gaps, ts)
    ensures Splits(text + s, [""] + gaps, [Token(kind, text)] + ts)
  {
  }

  lemma {:induction false} TokenizedSplits(s: string) returns (gaps: seq<string>)
    requires Tokenize(s).Some?
    ensures Splits(s, gaps, Tokenize(s).value)
    decreases |s|
  {
    hide Tokenize, Splits, IsToken, Follows, Scan, GapPiece;
    var ts := Tokenize(s).value;
    if s == [] || (!IsWhiteSpace(s[0]) && Scan(s).kind == Eof) {
      EndSplits(s);
      gaps := [s];
    } else if IsWhiteSpace(s[0]) || Scan(s).kind == Comment {
      var n := FirstPiece(s);
      PieceThenTokenize(s[..n], s[n..]);
      gaps := TokenizedSplits(s[n..]);
      gaps := AddGap(s[..n], s[n..], gaps, ts);
    } else {
      ScannedIsNoError(s);
      ScanSound(s);
      var l := Scan(s);
      var gs := TokenizedSplits(l.rest);
      gaps := [""] + gs;
      AddToken(l.text, l.kind, l.rest, gs, Tokenize(l.rest).value);
    }
  }

  lemma EndSplits(s: string)
    requires s == [] || (!IsWhiteSpace(s[0]) && Scan(s).kind == Eof)
    ensures Tokenize(s) == Some([]) && Splits(s, [s], [])
  {
  }

  lemma ScannedIsNoError(s: string)
    requires Tokenize(s).Some? && s != [] && !IsWhiteSpace(s[0]) && Scan(s).kind !in {Eof, Comment}
    ensures var l := Scan(s);
            l.kind != Error && Tokenize(s) == Prepend(Token(l.kind, l.text), Tokenize(l.rest))
  {
  }

  /** The blank or comment a text starts with. */
  lemma FirstPiece(s: string) returns (n: nat)
    requires s != [] && (IsWhiteSpace(s[0]) || Scan(s).kind == Comment)
    ensures 0 < n <= |s| && GapPiece(s[..n]) && s == s[..n] + s[n..]
  {
    if IsWhiteSpace(s[0]) {
      n := 1;
    } else {
      n := Span(s, InComment) + 1;
      SpanIs(s[..n], InComment, n - 1);
    }
  }

  /** A text tokenizes to `ts` exactly when it is made of the texts of `ts` with
      gaps in between: tokens are as long as they can be, nothing else is dropped. */
  lemma TokenizeIffSplits(s: string, ts: seq<Token>)
    ensures Tokenize(s) == Some(ts) ==> exists gaps :: Splits(s, gaps, ts)
    ensures (exists gaps :: Splits(s, gaps, ts)) ==> Tokenize(s) == Some(ts)
  {
    if Tokenize(s) == Some(ts) {
      var gaps := TokenizedSplits(s);
      assert Splits(s, gaps, ts);
    }
    if exists gaps :: Splits(s, gaps, ts) {
      var gaps :| Splits(s, gaps, ts);
      SplitTokenizes(s, gaps, ts);
    }
  }

  /** How much of the text a split has used up at the end of token `k`. */
  function EndOfToken(gaps: seq<string>, ts: seq<Token>, k: nat): (n: nat)
    requires k < |ts| < |gaps|
    decreases k
  {
    |gaps[0]| + |ts[0].text| + if k == 0 then 0 else EndOfToken(gaps[1..], ts[1..], k - 1)
  }

  lemma SpliceBehindToken(g: string, t: Token, rest: string, n: nat, ins: string, ts: seq<Token>)
    requires n <= |rest| && Tokenize(Splice(rest, n, ins)) == Some(ts)
    requires Gap(g) && IsToken(t) && Follows(t.kind, Splice(rest, n, ins))
    ensures Tokenize(Splice(g + t.text + rest, |g| + |t.text| + n, ins)) == Some([t] + ts)
  {
    hide Tokenize, Splice, Gap, IsToken, Follows;
    GapTokenThenTokenize(g, t, Splice(rest, n, ins));
    SpliceBehind(g + t.text, rest, n, ins);
  }

  lemma TakeToken(s: string, gaps: seq<string>, ts: seq<Token>) returns (rest: string)
    requires Splits(s, gaps, ts) && ts != []
    ensures s == gaps[0] + ts[0].text + rest
    ensures Splits(rest, gaps[1..], ts[1..]) && Tokenize(rest) == Some(ts[1..])
    ensures Gap(gaps[0]) && IsToken(ts[0]) && Follows(ts[0].kind, rest)
    ensures ts == [ts[0]] + ts[1..]
  {
    hide Tokenize, Gap, TailGap, IsToken, Follows;
    rest := s[|gaps[0] + ts[0].text|..];
    SplitTokenizes(rest, gaps[1..], ts[1..]);
  }

  /** Blanks, and comments that follow a blank, may be put after any token. */
  lemma {:induction false} InsertAfterToken(s: string, gaps: seq<string>, ts: seq<Token>, k: nat, ins: string)
    requires Splits(s, gaps, ts) && k < |ts|
    requires Gap(ins) && ins != [] && IsWhiteSpace(ins[0])
    ensures var n := EndOfToken(gaps, ts, k);
            0 < n <= |s| && Tokenize(Splice(s, n, ins)) == Some(ts)
    decreases k
  {
    hide Tokenize, Gap, IsToken;
    var rest := TakeToken(s, gaps, ts);
    if k == 0 {
      GapThenTokenize(ins, rest);
      assert Splice(rest, 0, ins) == ins + rest;
      SpliceBehindToken(gaps[0], ts[0], rest, 0, ins, ts[1..]);
    } else {
      InsertAfterToken(rest, gaps[1..], ts[1..], k - 1, ins);
      var n := EndOfToken(gaps[1..], ts[1..], k - 1);
      assert Splice(rest, n, ins)[0] == rest[0];
      SpliceBehindToken(gaps[0], ts[0], rest, n, ins, ts[1..]);
    }
  }
}

/** The character state machine of the source, over a stream it consumes. */
module ConfigLexer {
  import opened Text
  import opened Streams
  import opened ConfigTokens

  method NextCharTerminatesQuotedToken(input: InputStream) returns (b: bool)
    requires input.Valid()
    modifies input
    ensures input.Valid() && input.Rest() == old(input.Rest())
    ensures b == (!old(input.good) || Follows(Quoted, input.Rest()))
  {
    if !input.good {
      return true;
    }
    var c := input.Peek();
    b := IsWhiteSpace(c) || IsBlockDelimiter(c);
  }

  /** The token that results when `value` is collected so far, starting with the
      quote `q`, and `u` is unread. */
  function FinishQuoted(value: string, u: string, q: char): Lexeme {
    match CloseQuote(u, q)
    case None => Lexeme(Error, "", "")
    case Some(n) =>
      if Follows(Quoted, u[n..]) then Lexeme(Quoted, value + u[..n], u[n..])
      else Lexeme(Error, "", "")
  }

  lemma FinishQuotedStep(value: string, u: string, q: char, k: nat)
    requires if u != [] && u[0] == '\\' then k == 2 <= |u| else k == 1 <= |u| && u[0] != q
    ensures FinishQuoted(value, u, q) == FinishQuoted(value + u[..k], u[k..], q)
  {
    match CloseQuote(u[k..], q)
    case None =>
    case Some(n) =>
      assert value + u[..k] + u[k..][..n] == value + u[..n + k];
      assert u[k..][n..] == u[n + k..];
  }

  method ConsumeQuotedToken(input: InputStream, opening: string, quote: char)
    returns (kind: TokenKind, value: string)
    requires input.Valid()
    modifies input
    ensures input.Valid()
    ensures var l := FinishQuoted(opening, old(input.Rest()), quote);
            kind == l.kind && (kind != Error ==> Lexeme(kind, value, input.Rest()) == l)
  {
    value := opening;
    ghost var all := FinishQuoted(value, input.Rest(), quote);
    while input.good
      invariant input.Valid()
      invariant FinishQuoted(value, input.Rest(), quote) == all
      decreases |input.Rest()|, input.good
    {
      ghost var u, before := input.Rest(), value;
      var c := input.Get();
      if !input.good {
        break;
      }
      value := value + [c];
      if c == '\\' {
        var escaped := input.Get();
        if !input.good {
          return Error, value;
        }
        value := value + [escaped];
        assert value == before + u[..2] && input.Rest() == u[2..];
        FinishQuotedStep(before, u, quote, 2);
        continue;
      }
      if c == quote {
        assert value == before + u[..1];
        var ends := NextCharTerminatesQuotedToken(input);
        return if ends then Quoted else Error, value;
      }
      assert value == before + u[..1];
      FinishQuotedStep(before, u, quote, 1);
    }
    return Error, value;
  }

  datatype State = InitialWhitespace | Commenting | Collecting

  /** The token that results in state `st` with `value` collected and `u` unread. */
  function Finish(st: State, value: string, u: string): Lexeme {
    match st
    case InitialWhitespace => NextToken(u)
    case Commenting =>
      var n := Span(u, InComment);
      if n == |u| then Lexeme(Eof, "", "") else Lexeme(Comment, "", u[n + 1..])
    case Collecting =>
      var n := Span(u, InToken);
      Lexeme(Normal, value + u[..n], u[n..])
  }

  /** One more character that leaves the state as it is. */
  lemma FinishStep(st: State, value: string, u: string)
    requires u != []
    requires match st
             case InitialWhitespace => IsWhiteSpace(u[0])
             case Commenting => InComment(u[0])
             case Collecting => InToken(u[0])
    ensures Finish(st, value, u) == Finish(st, if st == Collecting then value + [u[0]] else value, u[1..])
  {
  }

  /** The end of the text. */
  lemma FinishEnd(st: State, value: string, u: string)
    requires u == []
    ensures Finish(st, value, u) == Lexeme(if st == Collecting then Normal else Eof,
                                            if st == Collecting then value else "", "")
  {
  }

  lemma FinishDelimiter(u: string, kind: TokenKind)
    requires u != [] && IsToken(Token(kind, [u[0]])) && IsBlockDelimiter(u[0])
    ensures Finish(InitialWhitespace, "", u) == Lexeme(kind, [u[0]], u[1..])
  {
  }

  lemma FinishNormal(value: string, u: string)
    requires u != [] && EndsToken(u[0])
    ensures Finish(Collecting, value, u) == Lexeme(Normal, value, u)
  {
  }

  lemma FinishComment(u: string)
    requires u != [] && EndsLine(u[0])
    ensures Finish(Commenting, "", u) == Lexeme(Comment, "", u[1..])
  {
  }

  lemma FinishStartComment(u: string)
    requires u != [] && u[0] == '#'
    ensures Finish(InitialWhitespace, "", u) == Finish(Commenting, "", u[1..])
  {
  }

  lemma FinishStartNormal(u: string)
    requires u != [] && StartsNormal(u[0])
    ensures Finish(InitialWhitespace, "", u) == Finish(Collecting, [u[0]], u[1..])
  {
  }

  lemma FinishStartQuoted(u: string)
    requires u != [] && IsQuote(u[0])
    ensures Finish(InitialWhitespace, "", u) == FinishQuoted([u[0]], u[1..], u[0])
  {
    if CloseQuote(u[1..], u[0]).Some? {
      var n := CloseQuote(u[1..], u[0]).value;
      assert [u[0]] + u[1..][..n] == u[..n + 1];
    }
  }

  /** The first character `c` of a token or a gap, which the stream is just behind. */
  method FirstCharacter(input: InputStream, c: char, ghost u: string)
    returns (done: bool, kind: TokenKind, value: string, state: State)
    requires input.Valid() && u != [] && c == u[0] && input.Rest() == u[1..]
    modifies input
    ensures input.Valid()
    ensures var l := NextToken(u);
            if done then kind == l.kind && (kind != Error ==> Lexeme(kind, value, input.Rest()) == l)
            else input.Rest() == u[1..] && Finish(state, value, u[1..]) == l && (value == "") == (state != Collecting)
  {
    hide NextToken, FinishQuoted, Finish, Span, CloseQuote;
    FinishIsNextToken(u);
    FinishIsNextToken(u[1..]);
    if IsWhiteSpace(c) {
      FinishStep(InitialWhitespace, "", u);
      return false, Start, "", InitialWhitespace;
    } else if c == '{' || c == '}' || c == ';' {
      kind := if c == '{' then StartBlock else if c == '}' then EndBlock else StatementEnd;
      FinishDelimiter(u, kind);
      return true, kind, [c], InitialWhitespace;
    } else if c == '#' {
      FinishStartComment(u);
      return false, Start, "", Commenting;
    } else if c == '"' || c == '\'' {
      FinishStartQuoted(u);
      kind, value := ConsumeQuotedToken(input, [c], c);
      return true, kind, value, InitialWhitespace;
    } else {
      FinishStartNormal(u);
      return false, Start, [c], Collecting;
    }
  }

  lemma FinishIsNextToken(u: string)
    ensures Finish(InitialWhitespace, "", u) == NextToken(u)
  {
  }

  /** One call: the kind and text of the next token, which it takes off the stream. */
  method ParseToken(input: InputStream) returns (kind: TokenKind, value: string)
    requires input.Valid()
    modifies input
    ensures input.Valid()
    ensures var l := NextToken(old(input.Rest()));
            kind == l.kind && (kind != Error ==> Lexeme(kind, value, input.Rest()) == l)
  {
    hide NextToken, FinishQuoted, Finish, Span, CloseQuote;
    FinishIsNextToken(input.Rest());
    value := "";
    var state := InitialWhitespace;
    ghost var all := NextToken(input.Rest());
    while input.good
      invariant input.Valid()
      invariant (value == "") == (state != Collecting)
      invariant Finish(state, value, input.Rest()) == all
      decreases |input.Rest()|, input.good
    {
      ghost var u := input.Rest();
      var c := input.Get();
      if !input.good {
        break;
      }
      match state
      case InitialWhitespace =>
        FinishIsNextToken(u);
        var done;
        done, kind, value, state := FirstCharacter(input, c, u);
        if done {
          return;
        }
      case Collecting =>
        if IsWhiteSpace(c) || IsBlockDelimiter(c) {
          FinishNormal(value, u);
          input.Unget(c);
          return Normal, value;
        }
        FinishStep(state, value, u);
        value := value + [c];
      case Commenting =>
        if c == '\n' || c == '\r' {
          FinishComment(u);
          return Comment, value;
        }
        FinishStep(state, value, u);
    }
    FinishEnd(state, value, input.Rest());
    return if value != "" then Normal else Eof, value;
  }
}

/** Parsing a serialized request gives the request back. */
module RequestRoundTrip {
  import opened Wrappers
  import opened Text
  import opened Streams
  import opened HttpTypes
  import opened RequestParser

  /** A line of the head: a field, with or without a blank behind its colon, or a line
      without a colon, which says nothing. */
  datatype Field = Field(name: string, value: string, blank: bool) | NoField(text: string)

  predicate InLine(c: char) { c != '\r' && c != '\n' }

  predicate IsLine(s: string) {
    s != [] && forall i :: 0 <= i < |s| ==> InLine(s[i])
  }

  /** No CR or LF; no ':' in a name or outside a field; and a value that starts with a
      blank has another blank in front. */
  predicate IsField(f: Field) {
    match f
    case Field(name, value, blank) =>
      && (forall i :: 0 <= i < |name| ==> InLine(name[i]) && name[i] != ':')
      && (forall i :: 0 <= i < |value| ==> InLine(value[i]))
      && (blank || value == "" || value[0] != ' ')
    case NoField(text) => IsLine(text) && forall i :: 0 <= i < |text| ==> text[i] != ':'
  }

  function FieldLine(f: Field): string {
    match f
    case Field(name, value, blank) => name + (if blank then ": " else ":") + value
    case NoField(text) => text
  }

  /** The fields in order, a later one replacing an earlier one of the same name. */
  function AddFields(headers: map<string, string>, fs: seq<Field>): map<string, string>
    decreases |fs|
  {
    if fs == [] then headers else AddFields(AddField(headers, fs[0]), fs[1..])
  }

  function AddField(headers: map<string, string>, f: Field): map<string, string> {
    match f case Field(name, value, _) => headers[name := value] case NoField(_) => headers
  }

  predicate HasName(f: Field, name: string) { f.Field? && f.name == name }

  lemma {:induction false} LastFieldWins(headers: map<string, string>, fs: seq<Field>, i: nat)
    requires i < |fs| && fs[i].Field? && forall j :: i < j < |fs| ==> !HasName(fs[j], fs[i].name)
    ensures fs[i].name in AddFields(headers, fs) && AddFields(headers, fs)[fs[i].name] == fs[i].value
    decreases |fs|
  {
    if i == 0 {
      OtherFieldsKeep(AddField(headers, fs[0]), fs[1..], fs[0].name);
    } else {
      LastFieldWins(AddField(headers, fs[0]), fs[1..], i - 1);
    }
  }

  lemma {:induction false} OtherFieldsKeep(headers: map<string, string>, fs: seq<Field>, name: string)
    requires forall j :: 0 <= j < |fs| ==> !HasName(fs[j], name)
    ensures name in AddFields(headers, fs) <==> name in headers
    ensures name in headers ==> AddFields(headers, fs)[name] == headers[name]
    decreases |fs|
  {
    if fs != [] {
      OtherFieldsKeep(AddField(headers, fs[0]), fs[1..], name);
    }
  }

  // ----- Lines -----

  /** The lines of a head behind the request line, each with the CRLF in front of it, and
      what comes behind them. */
  function Tail(fs: seq<Field>, ending: string): string {
    if fs == [] then ending else CRLF + (FieldLine(fs[0]) + Tail(fs[1..], ending))
  }

  /** What may stand behind the last line of a head that has no blank line behind it:
      nothing, a line end, or a line end and an LF that makes an empty line, behind which
      everything is left unread. */
  predicate IsOpenEnd(ending: string) {
    Find(ending, BLANK_LINE) == None && (ending == "" || ending == CRLF || CRLF + "\n" <= ending)
  }

  lemma FieldLineIsLine(f: Field)
    requires IsField(f)
    ensures IsLine(FieldLine(f))
  {
  }

  function Later(i: Option<nat>, n: nat): Option<nat> {
    match i case None => None case Some(k) => Some(k + n)
  }

  lemma FindOneLater(c: char, s: string)
    requires !(BLANK_LINE <= [c] + s)
    ensures Find([c] + s, BLANK_LINE) == Later(Find(s, BLANK_LINE), 1)
  {
    assert ([c] + s)[1..] == s;
  }

  lemma FindBehindChar(c: char, s: string)
    requires c != '\r'
    ensures Find([c] + s, BLANK_LINE) == Later(Find(s, BLANK_LINE), 1)
  {
    hide Find;
    assert ([c] + s)[0] == c && BLANK_LINE[0] == '\r';
    FindOneLater(c, s);
  }

  lemma {:induction false} FindBehindLine(l: string, s: string)
    requires forall i :: 0 <= i < |l| ==> InLine(l[i])
    ensures Find(l + s, BLANK_LINE) == Later(Find(s, BLANK_LINE), |l|)
    decreases |l|
  {
    hide Find, BLANK_LINE;
    if l == [] {
      assert l + s == s;
    } else {
      FindBehindLine(l[1..], s);
      FindBehindChar(l[0], l[1..] + s);
      Regroup(l, 1, s);
      assert l[..1] == [l[0]];
    }
  }

  lemma FindBehindCrlf(s: string)
    requires s != [] && InLine(s[0])
    ensures Find(CRLF + s, BLANK_LINE) == Later(Find(s, BLANK_LINE), 2)
  {
    hide Find;
    FindBehindChar('\n', s);
    var t := ['\r'] + (['\n'] + s);
    assert t[2] == s[0] && BLANK_LINE[2] == '\r';
    FindOneLater('\r', ['\n'] + s);
    assert CRLF + s == t;
  }

  lemma {:induction false} TailAppends(fs: seq<Field>, s: string)
    ensures Tail(fs, s) == Tail(fs, "") + s
    decreases |fs|
  {
    hide FieldLine;
    if fs != [] {
      TailAppends(fs[1..], s);
      Associate(FieldLine(fs[0]), Tail(fs[1..], ""), s);
      Associate(CRLF, FieldLine(fs[0]) + Tail(fs[1..], ""), s);
    }
  }

  lemma FindBehindField(f: Field, s: string)
    requires IsField(f)
    ensures Find(CRLF + (FieldLine(f) + s), BLANK_LINE) == Later(Find(s, BLANK_LINE), |CRLF + FieldLine(f)|)
  {
    FieldLineIsLine(f);
    hide Find, BLANK_LINE, FieldLine, IsField;
    FindBehindLine(FieldLine(f), s);
    FindBehindCrlf(FieldLine(f) + s);
  }

  /** Behind the lines of a head, the first blank line is that of what follows. */
  lemma {:induction false} FindBehindFields(fs: seq<Field>, s: string)
    requires forall i :: 0 <= i < |fs| ==> IsField(fs[i])
    ensures Find(Tail(fs, s), BLANK_LINE) == Later(Find(s, BLANK_LINE), |Tail(fs, "")|)
    decreases |fs|
  {
    hide Find, BLANK_LINE, FieldLine, IsField;
    if fs != [] {
      FindBehindFields(fs[1..], s);
      FindBehindField(fs[0], Tail(fs[1..], s));
    }
  }

  lemma FindAtFront(s: string)
    requires BLANK_LINE <= s
    ensures Find(s, BLANK_LINE) == Some(0)
  {
  }

  lemma LineCharacters(l: string)
    requires IsLine(l)
    ensures forall i :: 0 <= i < |l| ==> InLine(l[i])
  {
  }

  lemma LaterTwice(m: nat, n: nat)
    ensures Later(Later(Some(0), m), n) == Some(n + m)
  {
  }

  /** The head of a serialized request is what stands before the first blank line. */
  lemma FindEndOfHead(l: string, fs: seq<Field>, s: string)
    requires IsLine(l) && forall i :: 0 <= i < |fs| ==> IsField(fs[i])
    requires BLANK_LINE <= s
    ensures Find(l + Tail(fs, s), BLANK_LINE) == Some(|l + Tail(fs, "")|)
  {
    hide *;
    FindAtFront(s);
    FindBehindFields(fs, s);
    LineCharacters(l);
    FindBehindLine(l, Tail(fs, s));
    LaterTwice(|Tail(fs, "")|, |l|);
  }

  /** What the reader of lines finds behind a line of the head. */
  function Rest(fs: seq<Field>, ending: string): string {
    if fs == [] then (if |ending| < 2 then "" else ending[2..]) else FieldLine(fs[0]) + Tail(fs[1..], ending)
  }

  lemma LineBeforeCrlf(l: string, s: string)
    requires IsLine(l)
    ensures var t := l + (CRLF + s);
            StripCr(t[..Span(t, NotNewline)]) == l && LineRest(t) == s
  {
    var t := l + (CRLF + s);
    SpanIs(t, NotNewline, |l| + 1);
    hide Span;
    assert t[..|l| + 1] == l + "\r";
    assert (l + "\r")[..|l|] == l;
    assert t[|l| + 2..] == s;
  }

  lemma LineAtEnd(l: string)
    requires IsLine(l)
    ensures StripCr(l[..Span(l, NotNewline)]) == l && LineRest(l) == ""
  {
  }

  lemma FirstLine(l: string, fs: seq<Field>, ending: string)
    requires IsLine(l) && IsOpenEnd(ending)
    ensures var s := l + Tail(fs, ending);
            StripCr(s[..Span(s, NotNewline)]) == l && LineRest(s) == Rest(fs, ending)
  {
    hide StripCr, LineRest, Span, FieldLine, IsLine, Find;
    if fs == [] {
      if ending == "" {
        LineAtEnd(l);
        assert l + ending == l;
      } else {
        assert ending == CRLF + ending[2..];
        LineBeforeCrlf(l, ending[2..]);
      }
    } else {
      LineBeforeCrlf(l, Rest(fs, ending));
    }
  }

  lemma AddFieldLine(headers: map<string, string>, f: Field)
    requires IsField(f)
    ensures AddHeader(headers, FieldLine(f)) == AddField(headers, f)
  {
    match f
    case NoField(text) => SpanIs(text, NotColon, |text|);
    case Field(name, value, blank) => AddNamed(headers, name, value, blank);
  }

  lemma AddAtColon(headers: map<string, string>, name: string, v: string)
    requires forall i :: 0 <= i < |name| ==> name[i] != ':'
    ensures AddHeader(headers, name + ":" + v) == headers[name := if v != "" && v[0] == ' ' then v[1..] else v]
  {
    SpanIs(name + ":" + v, NotColon, |name|);
    CutAt(name, ":", v);
    hide Span;
  }

  lemma AddNamed(headers: map<string, string>, name: string, value: string, blank: bool)
    requires IsField(Field(name, value, blank))
    ensures AddHeader(headers, name + (if blank then ": " else ":") + value) == headers[name := value]
  {
    var v := (if blank then " " else "") + value;
    DropBlank(value, blank);
    AddAtColon(headers, name, v);
    hide AddHeader;
    assert name + ":" + v == name + (if blank then ": " else ":") + value;
  }

  lemma DropBlank(value: string, blank: bool)
    requires blank || value == "" || value[0] != ' '
    ensures var v := (if blank then " " else "") + value; (if v != "" && v[0] == ' ' then v[1..] else v) == value
  {
  }

  lemma ReadEnding(ending: string, headers: map<string, string>)
    requires IsOpenEnd(ending)
    ensures ReadHeaders(Rest([], ending), headers) == headers
  {
    hide Find, ReadHeaders, Span;
    var s := Rest([], ending);
    ReadHeadersStep(s, headers);
    if CRLF + "\n" <= ending {
      assert s[0] == '\n';
      SpanIs(s, NotNewline, 0);
      assert s[..0] == "";
    }
  }

  lemma {:induction false} ReadFields(fs: seq<Field>, ending: string, headers: map<string, string>)
    requires IsOpenEnd(ending) && forall i :: 0 <= i < |fs| ==> IsField(fs[i])
    ensures ReadHeaders(Rest(fs, ending), headers) == AddFields(headers, fs)
    decreases |fs|
  {
    if fs == [] {
      ReadEnding(ending, headers);
    } else {
      hide Span, StripCr, LineRest, AddHeader, IsField, AddField, IsOpenEnd;
      FieldLineIsLine(fs[0]);
      FirstLine(FieldLine(fs[0]), fs[1..], ending);
      AddFieldLine(headers, fs[0]);
      ReadFields(fs[1..], ending, AddField(headers, fs[0]));
      ReadHeadersStep(Rest(fs, ending), headers);
    }
  }

  /** What a head says: its request line decides, and its fields are all read. */
  lemma ReadHead(l: string, fs: seq<Field>, ending: string)
    requires IsLine(l) && IsOpenEnd(ending) && forall i :: 0 <= i < |fs| ==> IsField(fs[i])
    ensures var head := l + Tail(fs, ending);
            && RequestLine(StripCr(head[..Span(head, NotNewline)])) == RequestLine(l)
            && ReadHeaders(LineRest(head), map[]) == AddFields(map[], fs)
  {
    hide Span, StripCr, LineRest, IsField, AddFields, IsOpenEnd, RequestLine;
    FirstLine(l, fs, ending);
    ReadFields(fs, ending, map[]);
  }

  // ----- Whole requests -----

  /** A request: its request line, the lines of its head, a blank line and the body. */
  function Serialize(requestLine: string, fs: seq<Field>, body: string): string {
    requestLine + Tail(fs, BLANK_LINE + body)
  }

  function Parsed(requestLine: string, fs: seq<Field>, body: string, raw: string): Option<HttpRequest> {
    match RequestLine(requestLine)
    case None => None
    case Some((verb, path)) => Some(HttpRequest(verb, path, AddFields(map[], fs), body, raw, "", NO_SESSION))
  }

  /** Every request survives serialization, whatever its fields, with or without blanks
      behind the colons, its lines without a colon, and its body. */
  lemma SerializedParses(l: string, fs: seq<Field>, body: string)
    requires IsLine(l) && forall i :: 0 <= i < |fs| ==> IsField(fs[i])
    ensures var raw := Serialize(l, fs, body); ParseRequest(raw) == Parsed(l, fs, body, raw)
  {
    SerializedSplits(l, fs, body);
    NothingIsOpenEnd();
    ReadHead(l, fs, "");
    hide Head, Body, Tail, Serialize, AddFields, ReadHeaders, RequestLine, LineRest, StripCr, Span, IsField;
  }

  lemma SerializedSplits(l: string, fs: seq<Field>, body: string)
    requires IsLine(l) && forall i :: 0 <= i < |fs| ==> IsField(fs[i])
    ensures var raw := Serialize(l, fs, body); Head(raw) == l + Tail(fs, "") && Body(raw) == body
  {
    var head := l + Tail(fs, "");
    assert Serialize(l, fs, body) == l + Tail(fs, BLANK_LINE + body) && BLANK_LINE <= BLANK_LINE + body;
    hide *;
    FindEndOfHead(l, fs, BLANK_LINE + body);
    TailAppends(fs, BLANK_LINE + body);
    Associate(l, Tail(fs, ""), BLANK_LINE + body);
    Associate(head, BLANK_LINE, body);
    HeadAndBody(head, body);
  }

  lemma HeadAndBody(head: string, body: string)
    requires Find(head + BLANK_LINE + body, BLANK_LINE) == Some(|head|)
    ensures Head(head + BLANK_LINE + body) == head && Body(head + BLANK_LINE + body) == body
  {
    CutAt(head, BLANK_LINE, body);
    hide Find;
  }

  lemma NothingIsOpenEnd()
    ensures IsOpenEnd("")
  {
  }

  /** A request without the closing blank line has the same head, and no body. */
  lemma UnfinishedParses(l: string, fs: seq<Field>, ending: string)
    requires IsLine(l) && IsOpenEnd(ending) && forall i :: 0 <= i < |fs| ==> IsField(fs[i])
    ensures var raw := l + Tail(fs, ending); ParseRequest(raw) == Parsed(l, fs, "", raw)
  {
    FindBehindFields(fs, ending);
    FindBehindLine(l, Tail(fs, ending));
    ReadHead(l, fs, ending);
    hide Find, Tail, AddFields, ReadHeaders, RequestLine, LineRest, StripCr, Span;
  }

  lemma CutAt(a: string, b: string, c: string)
    ensures (a + b + c)[..|a|] == a && (a + b + c)[|a| + |b|..] == c
  {
  }

  /** A text without a first line is an error. */
  lemma NoLineIsError(raw: string)
    requires raw == "" || raw[0] == '\n' || CRLF <= raw
    ensures ParseRequest(raw) == None
  {
    var head := Head(raw);
    assert head <= raw;
    hide Find, ReadHeaders, Body, Head;
    EmptyFirstLine(raw, head);
    NoWordsNoLine();
  }

  lemma EmptyFirstLine(raw: string, head: string)
    requires (raw == "" || raw[0] == '\n' || CRLF <= raw) && head <= raw
    ensures StripCr(head[..Span(head, NotNewline)]) == ""
  {
    if |head| >= 2 && head[0] != '\n' {
      SpanIs(head, NotNewline, 1);
      assert head[..1] == "\r";
    }
  }

  lemma NoWordsNoLine()
    ensures RequestLine("") == None
  {
  }

  // ----- Request lines -----

  predicate IsBlank(c: char) {
    c == ' ' || c == '\t' || c == '\n' || c == '\r' || c as int == 11 || c as int == 12
  }

  predicate AllBlank(s: string) {
    forall i :: 0 <= i < |s| ==> IsBlank(s[i])
  }

  predicate IsWord(s: string) {
    s != [] && forall i :: 0 <= i < |s| ==> !IsBlank(s[i])
  }

  predicate EndsWord(s: string) {
    s == "" || IsBlank(s[0])
  }

  /** Method, path and version, blanks between them and perhaps in front, and whatever
      comes behind. */
  predicate IsRequestLine(line: string, lead: string, verb: string, gap1: string, path: string, gap2: string,
                          version: string, rest: string) {
    && line == lead + verb + gap1 + path + gap2 + version + rest
    && AllBlank(lead) && AllBlank(gap1) && gap1 != "" && AllBlank(gap2) && gap2 != ""
    && IsWord(verb) && IsWord(path) && IsWord(version) && EndsWord(rest)
    && "HTTP/" <= version
  }

  lemma WordBehindBlanks(g: string, w: string, rest: string)
    requires AllBlank(g) && IsWord(w) && EndsWord(rest)
    ensures FirstWord(g + w + rest) == w && AfterWord(g + w + rest) == rest
  {
    var s := g + w + rest;
    SpanIs(s, IsSpace, |g|);
    assert SkipSpaces(s) == w + rest;
    SpanIs(w + rest, NotSpace, |w|);
    assert (w + rest)[..|w|] == w && (w + rest)[|w|..] == rest;
  }

  lemma WordSplits(s: string) returns (g: string)
    ensures s == g + FirstWord(s) + AfterWord(s) && AllBlank(g)
    ensures FirstWord(s) == "" || IsWord(FirstWord(s))
    ensures EndsWord(AfterWord(s)) && (FirstWord(s) == "" ==> AfterWord(s) == "")
  {
    hide Span;
    var n := Span(s, IsSpace);
    g := s[..n];
    assert s == g + SkipSpaces(s);
    var t := SkipSpaces(s);
    assert t == FirstWord(s) + AfterWord(s);
    assert t != "" ==> t[0] == s[n];
    assert FirstWord(s) == "" ==> AfterWord(s) == t;
  }

  lemma RequestLineOf(line: string, lead: string, verb: string, gap1: string, path: string,
                      gap2: string, version: string, rest: string)
    requires IsRequestLine(line, lead, verb, gap1, path, gap2, version, rest)
    ensures RequestLine(line) == Some((verb, path))
  {
    hide FirstWord, AfterWord, AllBlank, IsWord;
    var s2 := gap2 + version + rest;
    var s1 := gap1 + path + s2;
    assert line == lead + verb + s1;
    BlanksEndWord(gap1, path + s2);
    BlanksEndWord(gap2, version + rest);
    assert gap1 + (path + s2) == s1 && gap2 + (version + rest) == s2;
    WordBehindBlanks(lead, verb, s1);
    WordBehindBlanks(gap1, path, s2);
    WordBehindBlanks(gap2, version, rest);
  }

  lemma BlanksEndWord(gap: string, rest: string)
    requires AllBlank(gap) && gap != ""
    ensures EndsWord(gap + rest)
  {
  }

  lemma FindRequestLine(line: string)
    returns (lead: string, gap1: string, gap2: string, version: string, rest: string)
    requires RequestLine(line).Some?
    ensures var (verb, path) := RequestLine(line).value;
            IsRequestLine(line, lead, verb, gap1, path, gap2, version, rest)
  {
    var s1 := AfterWord(line);
    var s2 := AfterWord(s1);
    lead := WordSplits(line);
    gap1 := WordSplits(s1);
    gap2 := WordSplits(s2);
    version, rest := FirstWord(s2), AfterWord(s2);
    hide FirstWord, AfterWord, AllBlank;
    assert s2 != "" && s1 != "";
    GapBeforeWord(gap1, FirstWord(s1), s2);
    GapBeforeWord(gap2, version, rest);
    assert line == lead + FirstWord(line) + gap1 + FirstWord(s1) + gap2 + version + rest;
  }

  lemma GapBeforeWord(gap: string, word: string, rest: string)
    requires IsWord(word) && EndsWord(gap + word + rest)
    ensures gap != ""
  {
  }

  /** A request line gives method and path exactly when it has three words, the third
      starting with HTTP/; a line that does not is an error. */
  lemma RequestLineIff(line: string, verb: string, path: string)
    ensures RequestLine(line) == Some((verb, path)) <==>
            exists lead, gap1, gap2, version, rest ::
              IsRequestLine(line, lead, verb, gap1, path, gap2, version, rest)
  {
    hide IsRequestLine, RequestLine;
    if RequestLine(line) == Some((verb, path)) {
      var lead, gap1, gap2, version, rest := FindRequestLine(line);
    }
    if lead, gap1, gap2, version, rest :| IsRequestLine(line, lead, verb, gap1, path, gap2, version, rest) {
      RequestLineOf(line, lead, verb, gap1, path, gap2, version, rest);
    }
  }

  lemma PlainLineIsLine(verb: string, path: string, version: string)
    requires IsWord(verb) && IsWord(path) && IsWord(version)
    ensures IsLine(verb + " " + path + " " + version)
  {
  }

  lemma OneBlank(rest: string)
    ensures AllBlank("") && AllBlank(" ") && EndsWord("") && EndsWord(" " + rest)
  {
  }

  lemma PlainRequestLine(verb: string, path: string, version: string)
    requires IsWord(verb) && IsWord(path) && IsWord(version)
    ensures RequestLine(verb + " " + path + " " + version) == if "HTTP/" <= version then Some((verb, path)) else None
  {
    hide FirstWord, AfterWord, IsWord, AllBlank, EndsWord;
    var s1, s2 := " " + path + " " + version, " " + version;
    OneBlank(path + " " + version);
    OneBlank(version);
    assert " " + (path + " " + version) == s1;
    WordBehindBlanks("", verb, s1);
    WordBehindBlanks(" ", path, s2);
    WordBehindBlanks(" ", version, "");
    assert "" + verb + s1 == verb + " " + path + " " + version;
    assert " " + path + s2 == s1 && " " + version + "" == s2;
    EmptyIsNoWord(version);
  }

  lemma EmptyIsNoWord(w: string)
    requires IsWord(w)
    ensures w != ""
  {
  }

  /** The plain form, with one blank between the words: every request survives; a version
      that does not start with HTTP/ is an error. */
  lemma SerializeThenParse(verb: string, path: string, version: string, fs: seq<Field>, body: string)
    requires IsWord(verb) && IsWord(path) && IsWord(version)
    requires forall i :: 0 <= i < |fs| ==> IsField(fs[i])
    ensures var raw := Serialize(verb + " " + path + " " + version, fs, body);
            ParseRequest(raw) ==
            if "HTTP/" <= version
            then Some(HttpRequest(verb, path, AddFields(map[], fs), body, raw, "", NO_SESSION))
            else None
  {
    PlainRequestLine(verb, path, version);
    PlainLineIsLine(verb, path, version);
    SerializedParses(verb + " " + path + " " + version, fs, body);
    hide IsField, Serialize, RequestLine, AddFields, ParseRequest, IsLine, IsWord;
  }
}

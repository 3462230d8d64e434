/** The HTTP request parser (the message format of section 2.1 of RFC 9112, its
    request line of section 3 and field lines of section 5), and the round trip
    with the serialization of a request. */
module RequestParser {
  import opened Wrappers
  import opened Text
  import opened Streams
  import opened HttpTypes

  const CRLF := "\r\n"
  const BLANK_LINE := "\r\n\r\n"

  /** std::string::find: the first place where `pattern` stands in `s`. */
  function Find(s: string, pattern: string): (i: Option<nat>)
    ensures i.Some? ==> i.value + |pattern| <= |s|
  {
    if pattern <= s then Some(0)
    else if s == [] then None
    else
      match Find(s[1..], pattern)
      case None => None
      case Some(i) => Some(i + 1)
  }

  lemma {:induction false} FindIsThere(s: string, pattern: string)
    requires Find(s, pattern).Some?
    ensures var i := Find(s, pattern).value; pattern == s[i..i + |pattern|]
    decreases |s|
  {
    if !(pattern <= s) {
      FindIsThere(s[1..], pattern);
      var i := Find(s[1..], pattern).value;
      assert s[1..][i..i + |pattern|] == s[i + 1..i + 1 + |pattern|];
    }
  }

  lemma {:induction false} FindIsFirst(s: string, pattern: string, j: nat)
    requires j <= |s| && pattern <= s[j..]
    ensures Find(s, pattern).Some? && Find(s, pattern).value <= j
    decreases |s|
  {
    if j > 0 && !(pattern <= s) {
      assert s[1..][j - 1..] == s[j..];
      FindIsFirst(s[1..], pattern, j - 1);
    } else if j == 0 {
      assert s[0..] == s;
    }
  }

  /** The pattern stands where it is found, and nowhere before; nowhere if it is not found. */
  lemma FindLeftmost(s: string, pattern: string)
    ensures var i := Find(s, pattern);
            && (i.Some? ==> pattern == s[i.value..i.value + |pattern|])
            && (forall j :: 0 <= j <= |s| && (i.Some? ==> j < i.value) ==> !(pattern <= s[j..]))
  {
    if Find(s, pattern).Some? {
      FindIsThere(s, pattern);
    }
    hide Find;
    forall j | 0 <= j <= |s| && pattern <= s[j..] ensures Find(s, pattern).Some? && Find(s, pattern).value <= j {
      FindIsFirst(s, pattern, j);
    }
  }

  predicate NotSpace(c: char) { !IsSpace(c) }

  predicate NotColon(c: char) { c != ':' }

  function StripCr(line: string): string {
    if line != [] && line[|line| - 1] == '\r' then line[..|line| - 1] else line
  }

  function SkipSpaces(s: string): string { s[Span(s, IsSpace)..] }

  /** The next word and what follows it, as operator>> into a string reads them. */
  function FirstWord(s: string): string { SkipSpaces(s)[..Span(SkipSpaces(s), NotSpace)] }

  function AfterWord(s: string): string { SkipSpaces(s)[Span(SkipSpaces(s), NotSpace)..] }

  /** Method, path and version of a request line, when it has three words and the
      third starts with HTTP/. */
  function RequestLine(line: string): Option<(string, string)> {
    var s1 := AfterWord(line);
    var s2 := AfterWord(s1);
    if FirstWord(s2) != "" && "HTTP/" <= FirstWord(s2) then Some((FirstWord(line), FirstWord(s1))) else None
  }

  /** One field line; a line without a colon adds nothing. */
  function AddHeader(headers: map<string, string>, line: string): map<string, string> {
    var colon := Span(line, NotColon);
    if colon == |line| then headers
    else
      var value := line[colon + 1..];
      headers[line[..colon] := if value != [] && value[0] == ' ' then value[1..] else value]
  }

  /** Field lines up to an empty line or the end of the head. */
  function ReadHeaders(s: string, headers: map<string, string>): map<string, string>
    decreases |s|
  {
    if s == [] then headers
    else
      var line := StripCr(s[..Span(s, NotNewline)]);
      if line == [] then headers else ReadHeaders(LineRest(s), AddHeader(headers, line))
  }

  function Head(raw: string): string {
    match Find(raw, BLANK_LINE) case None => raw case Some(i) => raw[..i]
  }

  function Body(raw: string): string {
    match Find(raw, BLANK_LINE) case None => "" case Some(i) => raw[i + 4..]
  }

  /** None stands for the protocol error. */
  function ParseRequest(raw: string): Option<HttpRequest> {
    var head := Head(raw);
    match RequestLine(StripCr(head[..Span(head, NotNewline)]))
    case None => None
    case Some((verb, path)) =>
      Some(HttpRequest(verb, path, ReadHeaders(LineRest(head), map[]), Body(raw), raw, "", NO_SESSION))
  }

  /** operator>> into a string: false when there is no word left. */
  method ReadWord(s: string) returns (ok: bool, word: string, rest: string)
    ensures word == FirstWord(s) && rest == AfterWord(s)
    ensures ok == (word != "")
  {
    var i := 0;
    while i < |s| && IsSpace(s[i])
      invariant i <= Span(s, IsSpace)
    {
      i := i + 1;
    }
    var t := s[i..];
    assert t == SkipSpaces(s);
    var n := 0;
    while n < |t| && !IsSpace(t[n])
      invariant n <= Span(t, NotSpace)
    {
      n := n + 1;
    }
    return n > 0, t[..n], t[n..];
  }

  lemma ReadHeadersStep(s: string, headers: map<string, string>)
    ensures s == [] ==> ReadHeaders(s, headers) == headers
    ensures s != [] ==>
              var line := StripCr(s[..Span(s, NotNewline)]);
              |LineRest(s)| < |s| &&
              ReadHeaders(s, headers) ==
              if line == [] then headers else ReadHeaders(LineRest(s), AddHeader(headers, line))
  {
  }

  /** The loop over the field lines. */
  method ParseHeaders(lines: InputStream) returns (headers: map<string, string>)
    requires lines.Valid()
    modifies lines
    ensures headers == ReadHeaders(old(lines.Rest()), map[])
  {
    hide ReadHeaders, Find, Span, LineRest;
    headers := map[];
    ghost var all := ReadHeaders(lines.Rest(), map[]);
    while true
      invariant lines.Valid()
      invariant ReadHeaders(lines.Rest(), headers) == all
      decreases |lines.Rest()|
    {
      ReadHeadersStep(lines.Rest(), headers);
      var more, line := lines.GetLine();
      if !more {
        break;
      }
      if line != "" && line[|line| - 1] == '\r' {
        line := line[..|line| - 1];
      }
      if line == "" {
        break;
      }
      var colon := Find(line, ":");
      FindColon(line);
      if colon == None {
        continue;
      }
      var name, value := line[..colon.value], line[colon.value + 1..];
      if value != "" && value[0] == ' ' {
        value := value[1..];
      }
      headers := headers[name := value];
    }
  }

  method Parse(raw: string) returns (ec: bool, req: HttpRequest)
    ensures ec == (ParseRequest(raw) == None)
    ensures !ec ==> req == ParseRequest(raw).value
    ensures ec ==> req == HttpRequest("", "", map[], "", "", "", NO_SESSION)
  {
    hide Find, Span, ReadHeaders, FirstWord, AfterWord;
    var empty := HttpRequest("", "", map[], "", "", "", NO_SESSION);
    req := empty.(raw := raw);
    var split := Find(raw, BLANK_LINE);
    var head := if split == None then raw else raw[..split.value];
    if split.Some? {
      req := req.(body := raw[split.value + 4..]);
    }
    var lines := new InputStream(head);
    var ok, requestLine := lines.GetLine();
    if !ok || requestLine == "" {
      NoRequestLine();
      return true, empty;
    }
    if requestLine[|requestLine| - 1] == '\r' {
      requestLine := requestLine[..|requestLine| - 1];
    }
    var ok1, verb, rest1 := ReadWord(requestLine);
    var ok2, path, rest2 := ReadWord(rest1);
    var ok3, version, rest3 := ReadWord(rest2);
    if !ok1 || !ok2 || !ok3 {
      MissingWord(requestLine);
      return true, empty;
    }
    if !("HTTP/" <= version) {
      return true, empty;
    }
    req := req.(verb := verb, path := path);
    var headers := ParseHeaders(lines);
    return false, req.(headers := headers);
  }

  lemma NoRequestLine()
    ensures RequestLine("") == None
  {
  }

  /** Words run out from the right: with fewer than three, the third is empty. */
  lemma MissingWord(line: string)
    ensures FirstWord(line) == "" ==> FirstWord(AfterWord(line)) == ""
    ensures FirstWord(AfterWord(line)) == "" ==> FirstWord(AfterWord(AfterWord(line))) == ""
  {
  }

  lemma {:induction false} FindColon(line: string)
    ensures var n := Span(line, NotColon);
            Find(line, ":") == if n == |line| then None else Some(n)
    decreases |line|
  {
    if line != [] {
      FindColon(line[1..]);
      assert ":" <= line <==> line[0] == ':';
    }
  }
}

/** Where a request carries its session token, and what the middleware sets. */
module SessionCookie {
  import opened Wrappers
  import opened Text

  const NAME := "session="

  predicate NotSemicolon(c: char) { c != ';' }

  /** The pattern session=([^;]+) matches at the front of `s`. */
  predicate MatchesHere(s: string) {
    NAME <= s && |s| > |NAME| && NotSemicolon(s[|NAME|])
  }

  /** The group of the leftmost match of session=([^;]+), as regex_search finds it. */
  function FindCookie(s: string): Option<string> {
    if s == [] then None
    else if MatchesHere(s) then Some(s[|NAME|..][..Span(s[|NAME|..], NotSemicolon)])
    else FindCookie(s[1..])
  }

  function ExtractSessionToken(headers: map<string, string>): Option<string> {
    var cookie := if "Cookie" in headers then FindCookie(headers["Cookie"]) else None;
    if cookie.Some? then cookie
    else if "Authorization" in headers && "Bearer " <= headers["Authorization"] then
      Some(headers["Authorization"][7..])
    else None
  }

  const HEX := "0123456789abcdef"

  /** generate_session_token, on the digits the random source draws. */
  method GenerateSessionToken(draw: nat -> nat) returns (token: string)
    requires forall i :: draw(i) < 16
    ensures |token| == 32 && forall i :: 0 <= i < 32 ==> token[i] == "0123456789abcdef"[draw(i)]
    ensures token != [] && IsPair(token)
  {
    token := "";
    for i := 0 to 32
      invariant |token| == i && forall j :: 0 <= j < i ==> token[j] == HEX[draw(j)]
    {
      token := token + [HEX[draw(i)]];
    }
    assert forall j :: 0 <= j < 16 ==> NotSemicolon(HEX[j]);
  }

  // ----- Cookie strings: pairs joined by "; " -----

  predicate IsPair(p: string) {
    forall i :: 0 <= i < |p| ==> NotSemicolon(p[i])
  }

  function Join(pairs: seq<string>): string {
    if pairs == [] then ""
    else if |pairs| == 1 then pairs[0]
    else pairs[0] + "; " + Join(pairs[1..])
  }

  /** The match of the first pair that has one. */
  function FirstMatch(pairs: seq<string>): Option<string> {
    if pairs == [] then None
    else if FindCookie(pairs[0]).Some? then FindCookie(pairs[0])
    else FirstMatch(pairs[1..])
  }

  lemma MatchInsidePair(p: string, rest: string)
    requires IsPair(p)
    ensures MatchesHere(p + "; " + rest) == MatchesHere(p)
    ensures MatchesHere(p) ==>
              FindCookie(p + "; " + rest) == FindCookie(p) == Some(p[|NAME|..])
  {
    var s := p + "; " + rest;
    NameInsidePair(p, rest);
    if MatchesHere(p) {
      var n := |p| - |NAME|;
      assert s[|NAME|..] == p[|NAME|..] + "; " + rest;
      ValueInsidePair(p[|NAME|..], rest);
      hide Span, NAME;
    }
  }

  lemma NameInsidePair(p: string, rest: string)
    requires IsPair(p)
    ensures MatchesHere(p + "; " + rest) == MatchesHere(p)
  {
    var s := p + "; " + rest;
    assert s[|p|] == ';';
    assert forall i :: 0 <= i < |NAME| ==> NotSemicolon(NAME[i]);
    if NAME <= s {
      assert forall i :: 0 <= i < |NAME| ==> s[i] == NAME[i];
      assert |NAME| <= |p|;
      assert NAME == s[..|NAME|] == p[..|NAME|];
    }
  }

  lemma ValueInsidePair(v: string, rest: string)
    requires IsPair(v)
    ensures var s := v + "; " + rest;
            s[..Span(s, NotSemicolon)] == v && v[..Span(v, NotSemicolon)] == v
  {
    SpanIs(v + "; " + rest, NotSemicolon, |v|);
    SpanIs(v, NotSemicolon, |v|);
  }

  lemma {:induction false} SearchOverPair(p: string, rest: string)
    requires IsPair(p)
    ensures FindCookie(p + "; " + rest) == if FindCookie(p).Some? then FindCookie(p) else FindCookie(rest)
    decreases |p|
  {
    var s := p + "; " + rest;
    if p == [] {
      assert s[1..][1..] == rest;
      assert s[0] == ';' && s[1..][0] == ' ';
      assert !MatchesHere(s) && !MatchesHere(s[1..]);
    } else {
      MatchInsidePair(p, rest);
      SearchOverPair(p[1..], rest);
      assert s[1..] == p[1..] + "; " + rest;
    }
  }

  /** Searching a cookie string finds what the first pair with a match has. */
  lemma {:induction false} SearchCookieString(pairs: seq<string>)
    requires forall i :: 0 <= i < |pairs| ==> IsPair(pairs[i])
    ensures FindCookie(Join(pairs)) == FirstMatch(pairs)
    decreases |pairs|
  {
    if |pairs| > 1 {
      SearchOverPair(pairs[0], Join(pairs[1..]));
      SearchCookieString(pairs[1..]);
    } else if |pairs| == 1 {
      assert FirstMatch(pairs[1..]) == None;
    }
  }

  /** A token set by the middleware and sent back in a cookie string is extracted,
      exactly when no pair in front of it matches with something else. */
  lemma {:induction false} CookieRoundTrip(before: seq<string>, token: string, after: seq<string>)
    requires forall i :: 0 <= i < |before| ==> IsPair(before[i])
    requires forall i :: 0 <= i < |after| ==> IsPair(after[i])
    requires token != [] && IsPair(token)
    ensures FindCookie(Join(before + [NAME + token] + after)) == Some(token) <==>
            FirstMatch(before) in {None, Some(token)}
  {
    var pairs := before + [NAME + token] + after;
    SearchCookieString(pairs);
    FirstMatchOver(before, [NAME + token] + after);
    assert before + ([NAME + token] + after) == pairs;
    TokenPairMatches(token);
  }

  lemma TokenPairMatches(token: string)
    requires token != [] && IsPair(token)
    ensures IsPair(NAME + token) && FindCookie(NAME + token) == Some(token)
  {
    MatchInsidePair(NAME + token, "");
  }

  lemma {:induction false} FirstMatchOver(a: seq<string>, b: seq<string>)
    ensures FirstMatch(a + b) == if FirstMatch(a).Some? then FirstMatch(a) else FirstMatch(b)
    decreases |a|
  {
    if a == [] {
      assert a + b == b;
    } else {
      FirstMatchOver(a[1..], b);
      assert (a + b)[1..] == a[1..] + b;
    }
  }

  /** What login sets is a cookie string with the token. */
  lemma SetCookieCarriesToken(token: string)
    requires token != [] && IsPair(token)
    ensures FindCookie("session=" + token + "; HttpOnly; Path=/;") == Some(token)
  {
    hide FindCookie, IsPair;
    TokenPairMatches(token);
    SearchOverPair(NAME + token, "HttpOnly; Path=/;");
    assert NAME + token + "; " + "HttpOnly; Path=/;" == "session=" + token + "; HttpOnly; Path=/;";
  }

  /** What logout sets carries no token. */
  lemma ClearCookieCarriesNone()
    ensures FindCookie("session=; HttpOnly; Path=/; Max-Age=0") == None
  {
    hide FindCookie;
    var attributes := "HttpOnly; Path=/; Max-Age=0";
    assert "session=; HttpOnly; Path=/; Max-Age=0" == NAME + "; " + attributes;
    SearchOverPair(NAME, attributes);
    NoMatchAnywhere(NAME);
    assert 's' !in attributes;
    NoMatchWithoutName(attributes);
  }

  lemma NoMatchWithoutName(s: string)
    requires 's' !in s
    ensures FindCookie(s) == None
  {
    hide FindCookie;
    forall i | 0 <= i < |s| ensures !MatchesHere(s[i..]) {
      assert s[i..][0] in s && NAME[0] == 's';
    }
    NoMatchAnywhere(s);
  }

  lemma {:induction false} NoMatchAnywhere(s: string)
    requires forall i :: 0 <= i < |s| ==> !MatchesHere(s[i..])
    ensures FindCookie(s) == None
    decreases |s|
  {
    if s != [] {
      assert s == s[0..];
      forall i | 0 <= i < |s| - 1 ensures !MatchesHere(s[1..][i..]) {
        assert s[1..][i..] == s[i + 1..];
      }
      NoMatchAnywhere(s[1..]);
    }
  }

  // ----- Any cookie string -----

  /** session= stands at `i`, and something other than a semicolon behind it. */
  predicate MatchAt(s: string, i: nat) {
    i <= |s| && "session=" <= s[i..] && |s| > i + 8 && s[i + 8] != ';'
  }

  /** What stands between session= at `i` and the next semicolon, or the end. */
  ghost predicate IsValueAt(s: string, i: nat, value: string) {
    && i + 8 + |value| <= |s| && s[i + 8..i + 8 + |value|] == value && ';' !in value
    && (i + 8 + |value| < |s| ==> s[i + 8 + |value|] == ';')
  }

  lemma {:induction false} FindCookieIsFirst(s: string, i: nat)
    requires MatchAt(s, i) && forall j: nat :: j < i ==> !MatchAt(s, j)
    ensures FindCookie(s).Some? && IsValueAt(s, i, FindCookie(s).value)
    decreases i
  {
    if i == 0 {
      assert s[0..] == s && MatchesHere(s);
      hide Span;
      var v := s[8..];
      assert FindCookie(s) == Some(v[..Span(v, NotSemicolon)]);
    } else {
      assert s[0..] == s && !MatchAt(s, 0);
      assert s[1..][i - 1..] == s[i..];
      forall j: nat | j < i - 1 ensures !MatchAt(s[1..], j) {
        assert s[1..][j..] == s[j + 1..] && !MatchAt(s, j + 1);
      }
      FindCookieIsFirst(s[1..], i - 1);
      var v := FindCookie(s[1..]).value;
      assert s[1..][i + 7..i + 7 + |v|] == s[i + 8..i + 8 + |v|];
    }
  }

  /** In any cookie string the leftmost session= with a value is found, and its value is
      all up to the next semicolon. */
  lemma FindCookieAnywhere(s: string)
    ensures FindCookie(s) == None <==> forall i: nat :: !MatchAt(s, i)
    ensures forall i: nat :: MatchAt(s, i) && (forall j: nat :: j < i ==> !MatchAt(s, j)) ==>
              FindCookie(s).Some? && IsValueAt(s, i, FindCookie(s).value)
  {
    hide FindCookie, IsValueAt;
    forall i: nat | MatchAt(s, i) && forall j: nat :: j < i ==> !MatchAt(s, j)
      ensures FindCookie(s).Some? && IsValueAt(s, i, FindCookie(s).value)
    {
      FindCookieIsFirst(s, i);
    }
    if n: nat :| MatchAt(s, n) {
      var i := FirstMatchAt(s, n);
    } else {
      forall i | 0 <= i < |s| ensures !MatchesHere(s[i..]) {
        assert !MatchAt(s, i);
      }
      NoMatchAnywhere(s);
    }
  }

  lemma {:induction false} FirstMatchAt(s: string, n: nat) returns (i: nat)
    requires MatchAt(s, n)
    ensures MatchAt(s, i) && forall j: nat :: j < i ==> !MatchAt(s, j)
    decreases n
  {
    if j: nat :| j < n && MatchAt(s, j) {
      i := FirstMatchAt(s, j);
    } else {
      i := n;
    }
  }

  // ----- Whole headers -----

  /** session= stands at `i` with something behind it. */
  predicate SessionAt(pair: string, i: nat) {
    i <= |pair| && "session=" <= pair[i..] && |pair| > i + 8
  }

  /** The first session= of the pair that has something behind it has `value`. */
  ghost predicate HasSession(pair: string, value: string) {
    exists i: nat :: SessionAt(pair, i) && pair[i + 8..] == value && forall j: nat :: j < i ==> !SessionAt(pair, j)
  }

  ghost predicate NoSession(pair: string) {
    forall i: nat :: !SessionAt(pair, i)
  }

  lemma {:induction false} FindCookieAt(pair: string, i: nat)
    requires IsPair(pair) && SessionAt(pair, i) && forall j: nat :: j < i ==> !SessionAt(pair, j)
    ensures FindCookie(pair) == Some(pair[i + |NAME|..])
    decreases i
  {
    if i == 0 {
      MatchInsidePair(pair, "");
    } else {
      assert pair[1..][i - 1..] == pair[i..];
      forall j: nat | j < i - 1 ensures !SessionAt(pair[1..], j) {
        assert pair[1..][j..] == pair[j + 1..] && !SessionAt(pair, j + 1);
      }
      FindCookieAt(pair[1..], i - 1);
      assert pair[1..][i - 1 + |NAME|..] == pair[i + |NAME|..];
      assert !SessionAt(pair, 0) && pair[0..] == pair;
    }
  }

  lemma FindCookieNowhere(pair: string)
    requires NoSession(pair)
    ensures FindCookie(pair) == None
  {
    forall i | 0 <= i < |pair| ensures !MatchesHere(pair[i..]) {
      assert !SessionAt(pair, i);
    }
    NoMatchAnywhere(pair);
  }

  lemma {:induction false} FirstSession(pair: string, n: nat) returns (i: nat)
    requires SessionAt(pair, n)
    ensures SessionAt(pair, i) && forall j: nat :: j < i ==> !SessionAt(pair, j)
    decreases n
  {
    if j: nat :| j < n && SessionAt(pair, j) {
      i := FirstSession(pair, j);
    } else {
      i := n;
    }
  }

  /** What the search finds in one pair, told from the characters of the pair. */
  lemma FindInPair(pair: string, value: string)
    requires IsPair(pair)
    ensures FindCookie(pair) == None <==> NoSession(pair)
    ensures FindCookie(pair) == Some(value) <==> HasSession(pair, value)
  {
    hide FindCookie;
    if n: nat :| SessionAt(pair, n) {
      var i := FirstSession(pair, n);
      FindCookieAt(pair, i);
      if HasSession(pair, value) {
        var k: nat :| SessionAt(pair, k) && pair[k + 8..] == value &&
                      forall j: nat :: j < k ==> !SessionAt(pair, j);
        FindCookieAt(pair, k);
      }
    } else {
      FindCookieNowhere(pair);
    }
  }

  /** The first pair that has a session has this value. */
  ghost predicate CookieCarries(pairs: seq<string>, value: string) {
    exists k :: 0 <= k < |pairs| && HasSession(pairs[k], value) && forall j :: 0 <= j < k ==> NoSession(pairs[j])
  }

  ghost predicate CookieCarriesNone(pairs: seq<string>) {
    forall j :: 0 <= j < |pairs| ==> NoSession(pairs[j])
  }

  lemma {:induction false} FirstMatchCarries(pairs: seq<string>, value: string)
    requires forall i :: 0 <= i < |pairs| ==> IsPair(pairs[i])
    ensures FirstMatch(pairs) == None <==> CookieCarriesNone(pairs)
    ensures FirstMatch(pairs) == Some(value) <==> CookieCarries(pairs, value)
    decreases |pairs|
  {
    hide FindCookie, HasSession, NoSession;
    if pairs != [] {
      var rest := pairs[1..];
      FirstMatchCarries(rest, value);
      FindInPair(pairs[0], value);
      assert forall i :: 0 <= i < |rest| ==> rest[i] == pairs[i + 1];
      if FindCookie(pairs[0]) == None {
        CarriesBehind(pairs, value);
      } else {
        assert CookieCarries(pairs, value) ==> HasSession(pairs[0], value);
      }
    }
  }

  lemma CarriesBehind(pairs: seq<string>, value: string)
    requires pairs != [] && NoSession(pairs[0])
    ensures CookieCarries(pairs, value) <==> CookieCarries(pairs[1..], value)
  {
    var rest := pairs[1..];
    FirstHasNone(pairs[0], value);
    hide HasSession, NoSession;
    if CookieCarries(pairs, value) {
      var k :| 0 <= k < |pairs| && HasSession(pairs[k], value) && forall j :: 0 <= j < k ==> NoSession(pairs[j]);
      assert rest[k - 1] == pairs[k];
      forall j | 0 <= j < k - 1 ensures NoSession(rest[j]) {
        assert NoSession(pairs[j + 1]);
      }
    }
    if CookieCarries(rest, value) {
      var k :| 0 <= k < |rest| && HasSession(rest[k], value) && forall j :: 0 <= j < k ==> NoSession(rest[j]);
      assert pairs[k + 1] == rest[k];
      forall j | 0 <= j < k + 1 ensures NoSession(pairs[j]) {
        assert j > 0 ==> pairs[j] == rest[j - 1];
      }
    }
  }

  lemma FirstHasNone(pair: string, value: string)
    requires NoSession(pair)
    ensures !HasSession(pair, value)
  {
  }

  /** A request gives a token exactly when the first of its cookie pairs with a session
      has it, or no pair has a session and the token is all that follows "Bearer ". */
  lemma HeadersCarryToken(headers: map<string, string>, pairs: seq<string>, token: string)
    requires forall i :: 0 <= i < |pairs| ==> IsPair(pairs[i])
    requires if pairs == [] then "Cookie" !in headers else "Cookie" in headers && headers["Cookie"] == Join(pairs)
    ensures ExtractSessionToken(headers) == Some(token) <==>
            || CookieCarries(pairs, token)
            || (CookieCarriesNone(pairs) && "Authorization" in headers && headers["Authorization"] == "Bearer " + token)
  {
    hide FindCookie, HasSession, NoSession, Join, FirstMatch;
    SearchCookieString(pairs);
    FirstMatchCarries(pairs, token);
    if "Authorization" in headers {
      BearerSplits(headers["Authorization"], token);
    }
    assert pairs == [] ==> !CookieCarries(pairs, token) && CookieCarriesNone(pairs);
  }

  lemma BearerSplits(value: string, token: string)
    ensures value == "Bearer " + token <==> "Bearer " <= value && value[7..] == token
  {
    if "Bearer " <= value && value[7..] == token {
      assert value == value[..7] + value[7..];
    }
  }
}

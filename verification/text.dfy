/** Strings as the server sees them: scanning spans, and the two decimal
    conversions (std::to_string and std::stoi) that file names rest on. */
module Text {
  import opened Wrappers

  /** Length of the longest prefix of `s` whose characters all satisfy `p`. */
  function Span(s: string, p: char -> bool): (n: nat)
    ensures n <= |s|
    ensures forall i :: 0 <= i < n ==> p(s[i])
    ensures n < |s| ==> !p(s[n])
  {
    if s == [] || !p(s[0]) then 0 else 1 + Span(s[1..], p)
  }

  lemma SpanIs(s: string, p: char -> bool, n: nat)
    requires n <= |s|
    requires forall i :: 0 <= i < n ==> p(s[i])
    requires n < |s| ==> !p(s[n])
    ensures Span(s, p) == n
  {
  }

  /** `ins` put into `s` after its first `n` characters. */
  function Splice(s: string, n: nat, ins: string): string
    requires n <= |s|
  {
    s[..n] + ins + s[n..]
  }

  lemma SpliceBehind(a: string, s: string, n: nat, ins: string)
    requires n <= |s|
    ensures Splice(a + s, |a| + n, ins) == a + Splice(s, n, ins)
  {
  }

  const INT_MAX: int := 0x7FFF_FFFF
  const INT_MIN: int := -0x8000_0000

  predicate IsInt(n: int) { INT_MIN <= n <= INT_MAX }

  predicate IsDigit(c: char) { '0' <= c <= '9' }

  /** The characters std::isspace accepts in the "C" locale. */
  predicate IsSpace(c: char) {
    c == ' ' || '\t' <= c <= '\r'
  }

  predicate AllDigits(s: string) {
    forall c :: c in s ==> IsDigit(c)
  }

  function DigitChar(d: nat): (c: char)
    requires d < 10
    ensures IsDigit(c)
    ensures DigitValue(c) == d
  {
    '0' + d as char
  }

  function Digits(n: nat): (s: string)
    ensures s != [] && AllDigits(s)
  {
    if n < 10 then [DigitChar(n)] else Digits(n / 10) + [DigitChar(n % 10)]
  }

  function DigitValue(c: char): nat
    requires IsDigit(c)
  {
    c as int - '0' as int
  }

  function DigitsValue(s: string): nat
    requires AllDigits(s)
  {
    if s == [] then 0
    else 10 * DigitsValue(s[..|s| - 1]) + DigitValue(s[|s| - 1])
  }

  lemma {:induction false} DigitsRoundTrip(n: nat)
    ensures DigitsValue(Digits(n)) == n
  {
    var s := Digits(n);
    if n < 10 {
      assert s[..0] == [];
    } else {
      DigitsRoundTrip(n / 10);
      assert s[..|s| - 1] == Digits(n / 10);
    }
  }

  /** std::to_string(int) */
  function ToDecimal(n: int): (s: string)
    ensures s != []
  {
    if n < 0 then "-" + Digits(-n) else Digits(n)
  }

  /** std::stoi: leading white space, an optional sign, then the longest run of
      digits; None stands for both invalid_argument and out_of_range. */
  function Stoi(s: string): (r: Option<int>)
    ensures r.Some? ==> IsInt(r.value)
  {
    StoiSigned(s[Span(s, IsSpace)..])
  }

  function StoiSigned(s: string): (r: Option<int>)
    ensures r.Some? ==> IsInt(r.value)
  {
    if s != [] && s[0] == '-' then StoiDigits(s[1..], true)
    else if s != [] && s[0] == '+' then StoiDigits(s[1..], false)
    else StoiDigits(s, false)
  }

  function StoiDigits(s: string, negative: bool): (r: Option<int>)
    ensures r.Some? ==> IsInt(r.value)
  {
    var n := Span(s, IsDigit);
    var v: int := DigitsValue(s[..n]);
    var r := if negative then -v else v;
    if n != 0 && IsInt(r) then Some(r) else None
  }

  lemma DigitsFirst(ds: string, suffix: string)
    requires AllDigits(ds) && (suffix == [] || !IsDigit(suffix[0]))
    ensures Span(ds + suffix, IsDigit) == |ds| && (ds + suffix)[..|ds|] == ds
  {
    forall i | 0 <= i < |ds| ensures IsDigit((ds + suffix)[i]) {
      assert ds[i] in ds;
    }
    SpanIs(ds + suffix, IsDigit, |ds|);
  }

  lemma StoiOfDigits(n: int, suffix: string, negative: bool)
    requires n >= 0
    requires suffix == [] || !IsDigit(suffix[0])
    ensures var r := if negative then -n else n;
            StoiDigits(Digits(n) + suffix, negative) == if IsInt(r) then Some(r) else None
  {
    DigitsRoundTrip(n);
    DigitsFirst(Digits(n), suffix);
    hide Digits, DigitsValue, Span;
  }

  /** Parsing undoes printing, whatever non-digit text follows: it is what
      makes `<n>` and `<n>.json` usable as keys. */
  lemma StoiOfDecimal(n: int, suffix: string)
    requires suffix == [] || !IsDigit(suffix[0])
    ensures Stoi(ToDecimal(n) + suffix) == if IsInt(n) then Some(n) else None
  {
    hide Digits, StoiDigits, DigitsValue;
    var m := if n < 0 then -n else n;
    var ds, s := Digits(m), ToDecimal(n) + suffix;
    StoiOfDigits(m, suffix, n < 0);
    assert ds[0] in ds;
    SpanIs(s, IsSpace, 0);
    assert s[0..] == s;
    if n < 0 {
      assert s[1..] == ds + suffix;
    }
  }

  /** Distinct ints have distinct file names, with or without an extension. */
  lemma DecimalInjective(m: int, n: int, suffix: string)
    requires suffix == [] || !IsDigit(suffix[0])
    requires IsInt(m) && IsInt(n)
    requires ToDecimal(m) + suffix == ToDecimal(n) + suffix
    ensures m == n
  {
    StoiOfDecimal(m, suffix);
    StoiOfDecimal(n, suffix);
  }

  // ----- What stoi reads, told from the characters -----

  predicate AllSpaces(s: string) {
    forall i :: 0 <= i < |s| ==> s[i] == ' ' || s[i] == '\t' || s[i] == '\n' || s[i] == '\r' || s[i] as int in {11, 12}
  }

  /** White space, a sign or none, all the digits of the number, and something else. */
  predicate ReadsAs(lead: string, sign: string, digits: string, rest: string, v: int) {
    && AllSpaces(lead) && (sign == "" || sign == "+" || sign == "-")
    && digits != "" && (forall i :: 0 <= i < |digits| ==> '0' <= digits[i] <= '9')
    && (rest != "" ==> !('0' <= rest[0] <= '9'))
    && (forall c :: c in digits ==> IsDigit(c))
    && v == (if sign == "-" then -1 else 1) * DigitsValue(digits)
    && INT_MIN <= v <= INT_MAX
  }

  lemma DigitsReads(sign: string, digits: string, rest: string, v: int)
    requires ReadsAs("", sign, digits, rest, v)
    ensures StoiDigits(digits + rest, sign == "-") == Some(v)
  {
    hide DigitsValue, Span;
    DigitsFirst(digits, rest);
  }

  lemma SignedReads(sign: string, digits: string, rest: string, v: int)
    requires ReadsAs("", sign, digits, rest, v)
    ensures StoiSigned(sign + (digits + rest)) == Some(v)
  {
    hide StoiDigits, DigitsValue;
    DigitsReads(sign, digits, rest, v);
    var u := digits + rest;
    assert u[0] == digits[0];
    assert (sign + u)[|sign|..] == u;
  }

  lemma StoiReads(lead: string, sign: string, digits: string, rest: string, v: int)
    requires ReadsAs(lead, sign, digits, rest, v)
    ensures Stoi(lead + sign + digits + rest) == Some(v)
  {
    hide DigitsValue, Span, StoiSigned;
    SignedReads(sign, digits, rest, v);
    var s, u := lead + sign + digits + rest, sign + (digits + rest);
    assert s == lead + u;
    assert u[0] == if sign == "" then digits[0] else sign[0];
    SpanIs(s, IsSpace, |lead|);
    assert s[|lead|..] == u;
  }

  lemma DigitsRead(u: string, negative: bool) returns (digits: string, rest: string)
    requires StoiDigits(u, negative).Some?
    ensures u == digits + rest
    ensures ReadsAs("", if negative then "-" else "", digits, rest, StoiDigits(u, negative).value)
  {
    hide DigitsValue;
    var n := Span(u, IsDigit);
    digits, rest := u[..n], u[n..];
    assert u == digits + rest;
    assert rest != "" ==> rest[0] == u[n];
    hide Span;
  }

  lemma SignedRead(t: string) returns (sign: string, digits: string, rest: string)
    requires StoiSigned(t).Some?
    ensures t == sign + (digits + rest) && ReadsAs("", sign, digits, rest, StoiSigned(t).value)
  {
    hide StoiDigits, DigitsValue;
    sign := if t != "" && (t[0] == '-' || t[0] == '+') then [t[0]] else "";
    digits, rest := DigitsRead(t[|sign|..], sign == "-");
    assert t == sign + t[|sign|..];
  }

  lemma SpanSpaces(s: string)
    ensures var n := Span(s, IsSpace); AllSpaces(s[..n]) && s == s[..n] + s[n..]
  {
    hide Span;
  }

  lemma StoiRead(s: string) returns (lead: string, sign: string, digits: string, rest: string)
    requires Stoi(s).Some?
    ensures s == lead + sign + digits + rest && ReadsAs(lead, sign, digits, rest, Stoi(s).value)
  {
    hide DigitsValue, StoiSigned, Span, AllSpaces;
    var n := Span(s, IsSpace);
    SpanSpaces(s);
    lead := s[..n];
    sign, digits, rest := SignedRead(s[n..]);
    assert lead + (sign + (digits + rest)) == lead + sign + digits + rest;
  }

  /** stoi gives `v` exactly when the text starts, behind white space, with a number of
      that value, which fits an int. */
  lemma StoiIffReads(s: string, v: int)
    ensures Stoi(s) == Some(v) <==>
            exists lead, sign, digits, rest :: s == lead + sign + digits + rest && ReadsAs(lead, sign, digits, rest, v)
  {
    hide ReadsAs, Stoi;
    if Stoi(s) == Some(v) {
      var lead, sign, digits, rest := StoiRead(s);
    }
    if lead, sign, digits, rest :| s == lead + sign + digits + rest && ReadsAs(lead, sign, digits, rest, v) {
      StoiReads(lead, sign, digits, rest, v);
    }
  }

  /** Nothing behind a dot matters. */
  lemma StoiBeforeDot(a: string, b: string)
    ensures Stoi(a + "." + b) == Stoi(a)
  {
    var s := a + "." + b;
    hide Stoi, DigitsValue;
    if Stoi(a).Some? {
      var lead, sign, digits, rest := StoiRead(a);
      StoiReads(lead, sign, digits, rest + "." + b, Stoi(a).value);
      assert lead + sign + digits + (rest + "." + b) == s;
    }
    if Stoi(s).Some? {
      var lead, sign, digits, rest := StoiRead(s);
      var read := lead + sign + digits;
      NoDotRead(lead, sign, digits, rest, Stoi(s).value);
      CutBeforeDot(a, b, read, rest);
      StoiReads(lead, sign, digits, a[|read|..], Stoi(s).value);
    }
  }

  lemma NoDotRead(lead: string, sign: string, digits: string, rest: string, v: int)
    requires ReadsAs(lead, sign, digits, rest, v)
    ensures '.' !in lead + sign + digits
  {
    hide DigitsValue;
  }

  lemma CutBeforeDot(a: string, b: string, read: string, rest: string)
    requires a + "." + b == read + rest && '.' !in read
    ensures |read| <= |a| && a == read + a[|read|..] && rest == a[|read|..] + "." + b
  {
    var s := a + "." + b;
    assert s[|a|] == '.';
    assert forall i :: 0 <= i < |read| ==> s[i] == read[i] && read[i] != '.';
    assert s[..|read|] == read && s[|read|..] == rest;
  }
}

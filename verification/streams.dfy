/** std::istream over an in-memory text: a cursor and a `good` flag. */
module Streams {
  import opened Text

  class InputStream {
    const data: string
    var pos: nat
    var good: bool

    ghost predicate Valid()
      reads this
    {
      && pos <= |data|
      && (!good ==> pos == |data|)
    }

    /** What is still to be read. A stream that is no longer good has nothing left. */
    ghost function Rest(): string
      reads this
      requires Valid()
    {
      data[pos..]
    }

    constructor (text: string)
      ensures Valid() && good && Rest() == text
    {
      data, pos, good := text, 0, true;
    }

    /** istream::get; at the end of the text it clears `good` and returns EOF,
        here the character 255. */
    method Get() returns (c: char)
      requires Valid()
      modifies this
      ensures Valid()
      ensures good == (old(Rest()) != [])
      ensures good ==> c == old(Rest())[0] && Rest() == old(Rest())[1..]
      ensures good ==> pos > 0 && data[pos - 1] == c
      ensures !good ==> Rest() == []
    {
      if good && pos < |data| {
        c := data[pos];
        pos := pos + 1;
      } else {
        good := false;
        c := 255 as char;
      }
    }

    /** istream::peek; at the end of the text it clears `good` and returns EOF. */
    method Peek() returns (c: char)
      requires Valid()
      modifies this
      ensures Valid() && Rest() == old(Rest())
      ensures good == (Rest() != [])
      ensures c == if Rest() != [] then Rest()[0] else 255 as char
    {
      if good && pos < |data| {
        c := data[pos];
      } else {
        good := false;
        c := 255 as char;
      }
    }

    /** istream::unget, which the lexer only calls right after a successful get. */
    method Unget(ghost c: char)
      requires Valid() && good && pos > 0 && data[pos - 1] == c
      modifies this
      ensures Valid() && good
      ensures Rest() == [c] + old(Rest())
    {
      pos := pos - 1;
    }

    /** std::getline: the text up to the next newline, which is dropped; it fails when
        there is nothing left to read. */
    method GetLine() returns (ok: bool, line: string)
      requires Valid()
      modifies this
      ensures Valid()
      ensures ok == (old(Rest()) != [])
      ensures var n := Span(old(Rest()), NotNewline);
              line == old(Rest())[..n] && Rest() == LineRest(old(Rest()))
    {
      hide Span, NotNewline, LineRest;
      line := "";
      ghost var all := Rest();
      ok := false;
      while good
        invariant Valid() && |line| <= Span(all, NotNewline)
        invariant line == all[..|line|] && Rest() == all[|line|..]
        invariant ok == (line != "")
        decreases |Rest()|, good
      {
        LineStep(all, line);
        var c := Get();
        if !good {
          break;
        }
        ok := true;
        if c == '\n' {
          return;
        }
        line := line + [c];
      }
      LineStep(all, line);
    }
  }

  predicate NotNewline(c: char) { c != '\n' }

  /** A line has no newline in it; one follows it, or nothing. */
  lemma LineSplits(all: string)
    ensures var line := all[..Span(all, NotNewline)];
            && '\n' !in line
            && (all == line + "\n" + LineRest(all) || (all == line && LineRest(all) == ""))
  {
    hide Span;
  }

  /** One character of a line, its newline or the end of the text. */
  lemma InLine(all: string, k: nat)
    requires k <= Span(all, NotNewline)
    ensures if k == |all| then Span(all, NotNewline) == k && LineRest(all) == ""
            else if all[k] == '\n' then Span(all, NotNewline) == k && LineRest(all) == all[k + 1..]
            else k < Span(all, NotNewline)
  {
    hide Span;
  }

  /** What the next character says, once `line` is read. */
  lemma LineStep(all: string, line: string)
    requires |line| <= Span(all, NotNewline) && line == all[..|line|]
    ensures var rest, n := all[|line|..], Span(all, NotNewline);
            && (rest == "" ==> line == all[..n] && LineRest(all) == "")
            && (rest != "" && rest[0] == '\n' ==> line == all[..n] && LineRest(all) == rest[1..])
            && (rest != "" && rest[0] != '\n' ==>
                  |line| < n && line + [rest[0]] == all[..|line| + 1] && rest[1..] == all[|line| + 1..])
  {
    InLine(all, |line|);
    hide Span, LineRest;
  }

  /** What is left behind the first line. */
  function LineRest(s: string): string {
    var n := Span(s, NotNewline);
    if n < |s| then s[n + 1..] else ""
  }
}

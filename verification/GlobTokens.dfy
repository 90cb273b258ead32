/** What a pattern accepts, form by form: each lemma says what one form lets through in front of
    an arbitrary rest of the pattern, in terms of the bytes of the text alone. */
module GlobTokens {
  import opened Base
  import opened Glob

  /** The text is accepted by the pattern. */
  ghost predicate Matches(p: Bytes, s: Bytes, escapes: bool) {
    Accepts(Tokens(p, escapes), s)
  }

  lemma SpecialBytes()
    ensures STAR == '*' as int as Byte && QUESTION == '?' as int as Byte && BACKSLASH == '\\' as int as Byte
    ensures OPEN == '[' as int as Byte && CLOSE == ']' as int as Byte && CARET == '^' as int as Byte && DASH == '-' as int as Byte
  {}

  /** A token other than a star, in front. */
  lemma OneByteInFront(t: Token, ts: seq<Token>, s: Bytes)
    requires t != Run
    ensures Accepts([t] + ts, s) <==> s != [] && Fits(t, s[..1]) && Accepts(ts, s[1..])
  {
    EatsHead(t, ts, s);
    EatsIsAccepts([t] + ts, s);
    if s != [] { EatsIsAccepts(ts, s[1..]); }
  }

  /** The empty pattern accepts the empty text only. */
  lemma Nothing(s: Bytes, escapes: bool)
    ensures Matches([], s, escapes) <==> s == []
  {
    EatsIsAccepts([], s);
  }

  /** A star takes any number of bytes. */
  lemma Star(rest: Bytes, s: Bytes, escapes: bool)
    ensures Matches([STAR] + rest, s, escapes) <==> exists i :: 0 <= i <= |s| && Matches(rest, s[i..], escapes)
  {
    var ts := Tokens(rest, escapes);
    assert ([STAR] + rest)[1..] == rest;
    EatsHead(Run, ts, s);
    EatsIsAccepts([Run] + ts, s);
    forall i | 0 <= i <= |s| ensures Eats(ts, s[i..]) <==> Matches(rest, s[i..], escapes) { EatsIsAccepts(ts, s[i..]); }
  }

  /** A question mark takes exactly one byte, whichever. */
  lemma Question(rest: Bytes, s: Bytes, escapes: bool)
    ensures Matches([QUESTION] + rest, s, escapes) <==> s != [] && Matches(rest, s[1..], escapes)
  {
    assert ([QUESTION] + rest)[1..] == rest;
    OneByteInFront(Any, Tokens(rest, escapes), s);
  }

  /** An ordinary byte takes itself; so do a bracket that is never closed and a backslash that quotes
      nothing, because it is the last byte or the copy knows no escapes. */
  lemma Ordinary(x: Byte, rest: Bytes, s: Bytes, escapes: bool)
    requires x != STAR && x != QUESTION && (x == OPEN ==> CLOSE !in rest) && (x == BACKSLASH ==> !escapes || rest == [])
    ensures Matches([x] + rest, s, escapes) <==> s != [] && s[0] == x && Matches(rest, s[1..], escapes)
  {
    var p := [x] + rest;
    assert p[1..] == rest && (CLOSE in p <==> x == CLOSE || CLOSE in rest);
    assert Tokens(p, escapes) == [Literal(x)] + Tokens(rest, escapes);
    OneByteInFront(Literal(x), Tokens(rest, escapes), s);
  }

  /** A quoted byte takes itself, whatever it is. */
  lemma Quoted(x: Byte, rest: Bytes, s: Bytes)
    ensures Matches([BACKSLASH, x] + rest, s, true) <==> s != [] && s[0] == x && Matches(rest, s[1..], true)
  {
    var p := [BACKSLASH, x] + rest;
    assert p[2..] == rest;
    OneByteInFront(Literal(x), Tokens(rest, true), s);
  }

  // --------------------------------------------------------------------- classes

  /** The byte is named in a class body: one by one, or between the ends of a range. */
  ghost predicate Listed(body: Bytes, c: Byte) {
    body != [] &&
    if |body| >= 3 && body[1] == DASH then body[0] <= c <= body[2] || Listed(body[3..], c)
    else body[0] == c || Listed(body[1..], c)
  }

  lemma {:induction false} ListedInRanges(body: Bytes, c: Byte)
    ensures InRanges(Ranges(body), c) <==> Listed(body, c)
  {
    if body != [] {
      InRangesStep(body, c);
      ListedInRanges(if |body| >= 3 && body[1] == DASH then body[3..] else body[1..], c);
    }
  }

  lemma ClassInFront(body: Bytes, rest: Bytes, escapes: bool)
    requires CLOSE !in body
    ensures Tokens([OPEN] + body + [CLOSE] + rest, escapes) == [ClassToken(body)] + Tokens(rest, escapes)
  {
    var p := [OPEN] + body + [CLOSE] + rest;
    var end := 1 + |body|;
    forall k | 0 <= k < end ensures p[k] != CLOSE { if k > 0 { assert p[k] == body[k - 1]; } }
    assert FirstAt(p, CLOSE, end);
    ClassTokens(p, escapes, end);
    assert p[1..end] == body && p[end + 1..] == rest;
  }

  /** A class takes one byte: one that its body lists, or after a caret one that the rest of the body
      does not list. */
  lemma Bracketed(body: Bytes, rest: Bytes, s: Bytes, escapes: bool)
    requires CLOSE !in body
    ensures Matches([OPEN] + body + [CLOSE] + rest, s, escapes) <==>
      s != [] && Matches(rest, s[1..], escapes)
      && if body != [] && body[0] == CARET then !Listed(body[1..], s[0]) else Listed(body, s[0])
  {
    ClassInFront(body, rest, escapes);
    OneByteInFront(ClassToken(body), Tokens(rest, escapes), s);
    if s != [] {
      assert s[..1] == [s[0]];
      ListedInRanges(body, s[0]);
      if body != [] { ListedInRanges(body[1..], s[0]); }
    }
  }

  /** [x] takes x, [^x] anything else. */
  lemma OneOf(x: Byte, rest: Bytes, s: Bytes, escapes: bool)
    requires x != CLOSE
    ensures x != CARET ==>
      (Matches([OPEN, x, CLOSE] + rest, s, escapes) <==> s != [] && s[0] == x && Matches(rest, s[1..], escapes))
    ensures Matches([OPEN, CARET, x, CLOSE] + rest, s, escapes) <==> s != [] && s[0] != x && Matches(rest, s[1..], escapes)
  {
    assert [OPEN, x, CLOSE] + rest == [OPEN] + [x] + [CLOSE] + rest;
    assert [OPEN, CARET, x, CLOSE] + rest == [OPEN] + [CARET, x] + [CLOSE] + rest;
    Bracketed([x], rest, s, escapes);
    Bracketed([CARET, x], rest, s, escapes);
    assert [CARET, x][1..] == [x];
  }

  /** [x-y] takes what lies from x to y, [^x-y] what does not. */
  lemma FromTo(x: Byte, y: Byte, rest: Bytes, s: Bytes, escapes: bool)
    requires x != CLOSE && y != CLOSE
    ensures x != CARET ==>
      (Matches([OPEN, x, DASH, y, CLOSE] + rest, s, escapes) <==> s != [] && x <= s[0] <= y && Matches(rest, s[1..], escapes))
    ensures Matches([OPEN, CARET, x, DASH, y, CLOSE] + rest, s, escapes) <==>
      s != [] && !(x <= s[0] <= y) && Matches(rest, s[1..], escapes)
  {
    assert [OPEN, x, DASH, y, CLOSE] + rest == [OPEN] + [x, DASH, y] + [CLOSE] + rest;
    assert [OPEN, CARET, x, DASH, y, CLOSE] + rest == [OPEN] + [CARET, x, DASH, y] + [CLOSE] + rest;
    Bracketed([x, DASH, y], rest, s, escapes);
    Bracketed([CARET, x, DASH, y], rest, s, escapes);
    assert [CARET, x, DASH, y][1..] == [x, DASH, y];
  }

  /** [xy] takes either. */
  lemma EitherOf(x: Byte, y: Byte, rest: Bytes, s: Bytes, escapes: bool)
    requires x != CLOSE && x != CARET && y != CLOSE
    ensures Matches([OPEN, x, y, CLOSE] + rest, s, escapes) <==>
      s != [] && (s[0] == x || s[0] == y) && Matches(rest, s[1..], escapes)
  {
    assert [OPEN, x, y, CLOSE] + rest == [OPEN] + [x, y] + [CLOSE] + rest;
    Bracketed([x, y], rest, s, escapes);
    if s != [] { ListedTwo(x, y, s[0]); }
  }

  lemma ListedTwo(x: Byte, y: Byte, c: Byte)
    ensures Listed([x, y], c) <==> c == x || c == y
  {
    assert [x, y][1..] == [y] && [y][1..] == [];
    assert Listed([y], c) <==> y == c;
  }

  // ----------------------------------------------------------------------- texts

  predicate Plain(p: Bytes) {
    forall x :: x in p ==> x != STAR && x != QUESTION && x != OPEN && x != BACKSLASH
  }

  /** A pattern without special bytes accepts itself and nothing else, in both copies. */
  lemma {:induction false} PlainMatchesItself(p: Bytes, s: Bytes, escapes: bool)
    requires Plain(p)
    ensures Matches(p, s, escapes) <==> s == p
  {
    if p == [] {
      Nothing(s, escapes);
    } else {
      assert p == [p[0]] + p[1..];
      assert p[0] in p && forall x :: x in p[1..] ==> x in p;
      Ordinary(p[0], p[1..], s, escapes);
      if s != [] {
        assert s == [s[0]] + s[1..];
        PlainMatchesItself(p[1..], s[1..], escapes);
      }
    }
  }
}

/** The Redis-style glob matcher, which the repository holds in two copies: the
    keyspace's, with backslash escapes, and the pub/sub one, without. */
module Glob {
  import opened Base

  const STAR: Byte := 42
  const QUESTION: Byte := 63
  const OPEN: Byte := 91
  const CLOSE: Byte := 93
  const CARET: Byte := 94
  const DASH: Byte := 45
  const BACKSLASH: Byte := 92

  /** What a pattern denotes: a list of tokens, each of which accepts some pieces of text. */
  datatype Token =
    | Run
    | Any
    | Class(negated: bool, ranges: seq<(Byte, Byte)>)
    | Literal(b: Byte)

  ghost predicate InRanges(ranges: seq<(Byte, Byte)>, c: Byte) {
    exists i :: 0 <= i < |ranges| && ranges[i].0 <= c <= ranges[i].1
  }

  ghost predicate Fits(t: Token, piece: Bytes) {
    match t
    case Run => true
    case Any => |piece| == 1
    case Class(negated, ranges) => |piece| == 1 && InRanges(ranges, piece[0]) != negated
    case Literal(b) => piece == [b]
  }

  ghost function Joined(pieces: seq<Bytes>): Bytes {
    if pieces == [] then [] else pieces[0] + Joined(pieces[1..])
  }

  ghost predicate Splits(ts: seq<Token>, pieces: seq<Bytes>) {
    |pieces| == |ts| && forall i :: 0 <= i < |ts| ==> Fits(ts[i], pieces[i])
  }

  /** s can be cut into consecutive pieces, one for each token, each fitting its token. */
  ghost predicate Accepts(ts: seq<Token>, s: Bytes) {
    exists pieces :: Splits(ts, pieces) && Joined(pieces) == s
  }

  /** The ranges of a class body: "a-z" is a range, anything else stands for itself. */
  ghost function Ranges(body: Bytes): seq<(Byte, Byte)> {
    if body == [] then []
    else if |body| > 2 && body[1] == DASH then [(body[0], body[2])] + Ranges(body[3..])
    else [(body[0], body[0])] + Ranges(body[1..])
  }

  ghost predicate FirstAt(b: Bytes, c: Byte, i: int) {
    0 <= i < |b| && b[i] == c && forall k :: 0 <= k < i ==> b[k] != c
  }

  ghost function ClassToken(body: Bytes): Token {
    if body != [] && body[0] == CARET then Class(true, Ranges(body[1..])) else Class(false, Ranges(body))
  }

  lemma FirstIndexExists(b: Bytes, c: Byte)
    requires c in b
    ensures exists i :: FirstAt(b, c, i)
  {
    var i :| 0 <= i < |b| && b[i] == c;
    while exists j :: 0 <= j < i && b[j] == c
      invariant 0 <= i < |b| && b[i] == c
      decreases i
    {
      var j :| 0 <= j < i && b[j] == c;
      i := j;
    }
    assert FirstAt(b, c, i);
  }

  /** The tokens of a pattern; escapes tells whether a backslash quotes the next byte. */
  ghost function Tokens(p: Bytes, escapes: bool): seq<Token>
    decreases |p|
  {
    if p == [] then []
    else if p[0] == STAR then [Run] + Tokens(p[1..], escapes)
    else if p[0] == QUESTION then [Any] + Tokens(p[1..], escapes)
    else if p[0] == OPEN && CLOSE in p then
      FirstIndexExists(p, CLOSE);
      var end :| FirstAt(p, CLOSE, end);
      [ClassToken(p[1..end])] + Tokens(p[end + 1..], escapes)
    else if p[0] == BACKSLASH && escapes && |p| > 1 then [Literal(p[1])] + Tokens(p[2..], escapes)
    else [Literal(p[0])] + Tokens(p[1..], escapes)
  }

  /** The same acceptance, token by token. */
  ghost predicate Eats(ts: seq<Token>, s: Bytes) {
    if ts == [] then s == []
    else if ts[0] == Run then exists i :: 0 <= i <= |s| && Eats(ts[1..], s[i..])
    else s != [] && Fits(ts[0], s[..1]) && Eats(ts[1..], s[1..])
  }

  lemma {:induction false} EatsAccepts(ts: seq<Token>, s: Bytes)
    requires Eats(ts, s)
    ensures Accepts(ts, s)
  {
    if ts == [] {
      assert Splits(ts, []) && Joined([]) == s;
    } else {
      var i := 1;
      if ts[0] == Run {
        i :| 0 <= i <= |s| && Eats(ts[1..], s[i..]);
      }
      EatsAccepts(ts[1..], s[i..]);
      var rest :| Splits(ts[1..], rest) && Joined(rest) == s[i..];
      var pieces := [s[..i]] + rest;
      assert pieces[1..] == rest;
      assert Splits(ts, pieces) && Joined(pieces) == s;
    }
  }

  lemma {:induction false} AcceptsEats(ts: seq<Token>, pieces: seq<Bytes>)
    requires Splits(ts, pieces)
    ensures Eats(ts, Joined(pieces))
  {
    if ts != [] {
      var s := Joined(pieces);
      AcceptsEats(ts[1..], pieces[1..]);
      var i := |pieces[0]|;
      assert s[i..] == Joined(pieces[1..]) && s[..i] == pieces[0];
    }
  }

  /** The token-by-token reading and the reading by pieces are the same. */
  lemma EatsIsAccepts(ts: seq<Token>, s: Bytes)
    ensures Eats(ts, s) <==> Accepts(ts, s)
  {
    if Eats(ts, s) { EatsAccepts(ts, s); }
    if Accepts(ts, s) {
      var pieces :| Splits(ts, pieces) && Joined(pieces) == s;
      AcceptsEats(ts, pieces);
    }
  }

  lemma RunTwice(ts: seq<Token>, s: Bytes)
    ensures Eats([Run, Run] + ts, s) == Eats([Run] + ts, s)
  {
    assert ([Run, Run] + ts)[1..] == [Run] + ts && ([Run] + ts)[1..] == ts;
    if Eats([Run] + ts, s) {
      assert Eats([Run] + ts, s[0..]);
    }
    if Eats([Run, Run] + ts, s) {
      var i :| 0 <= i <= |s| && Eats([Run] + ts, s[i..]);
      var j :| 0 <= j <= |s[i..]| && Eats(ts, s[i..][j..]);
      assert s[i..][j..] == s[i + j..];
    }
  }

  method IndexByte(b: Bytes, c: Byte) returns (r: int)
    ensures if c in b then FirstAt(b, c, r) else r == -1
  {
    for i := 0 to |b|
      invariant c !in b[..i]
    {
      if b[i] == c { return i; }
    }
    return -1;
  }

  method MatchClass(body: Bytes, c: Byte) returns (r: bool)
    ensures r <==> InRanges(Ranges(body), c)
  {
    var i := 0;
    while i < |body|
      invariant 0 <= i <= |body|
      invariant InRanges(Ranges(body), c) <==> InRanges(Ranges(body[i..]), c)
    {
      InRangesStep(body[i..], c);
      if i + 2 < |body| && body[i + 1] == DASH {
        assert body[i..][3..] == body[i + 3..];
        if body[i] <= c && c <= body[i + 2] { return true; }
        i := i + 3;
      } else {
        assert body[i..][1..] == body[i + 1..];
        if body[i] == c { return true; }
        i := i + 1;
      }
    }
    return false;
  }

  lemma InRangesStep(body: Bytes, c: Byte)
    requires body != []
    ensures var n := if |body| > 2 && body[1] == DASH then 2 else 0;
            InRanges(Ranges(body), c) <==>
            body[0] <= c <= body[n] || InRanges(Ranges(body[n + 1..]), c)
  {
    var n := if |body| > 2 && body[1] == DASH then 2 else 0;
    InRangesHead((body[0], body[n]), Ranges(body[n + 1..]), c);
  }

  lemma InRangesHead(r: (Byte, Byte), rest: seq<(Byte, Byte)>, c: Byte)
    ensures InRanges([r] + rest, c) <==> r.0 <= c <= r.1 || InRanges(rest, c)
  {
    var all := [r] + rest;
    assert all[0] == r && forall i :: 0 <= i < |rest| ==> all[i + 1] == rest[i];
    if InRanges(rest, c) {
      var i :| 0 <= i < |rest| && rest[i].0 <= c <= rest[i].1;
      assert all[i + 1].0 <= c <= all[i + 1].1;
    }
    if r.0 <= c <= r.1 {
      assert all[0].0 <= c <= all[0].1;
    }
  }

  lemma FirstIndexUnique(b: Bytes, c: Byte, i: int, j: int)
    requires FirstAt(b, c, i) && FirstAt(b, c, j)
    ensures i == j
  {}

  lemma ClassTokens(p: Bytes, escapes: bool, end: int)
    requires p != [] && p[0] == OPEN && FirstAt(p, CLOSE, end)
    ensures Tokens(p, escapes) == [ClassToken(p[1..end])] + Tokens(p[end + 1..], escapes)
  {
    var e :| FirstAt(p, CLOSE, e) && Tokens(p, escapes) == [ClassToken(p[1..e])] + Tokens(p[e + 1..], escapes);
    FirstIndexUnique(p, CLOSE, e, end);
  }

  lemma EatsHead(t: Token, ts: seq<Token>, s: Bytes)
    ensures t != Run ==> (Eats([t] + ts, s) <==> s != [] && Fits(t, s[..1]) && Eats(ts, s[1..]))
    ensures t == Run ==> (Eats([t] + ts, s) <==> exists i :: 0 <= i <= |s| && Eats(ts, s[i..]))
  {
    assert ([t] + ts)[1..] == ts;
  }

  /** Both copies of the matching loop, which differ only in the escape case: it
      terminates on every input and accepts exactly the texts the pattern's token
      list can be split along. */
  method MatchBytes(pattern0: Bytes, s0: Bytes, escapes: bool) returns (r: bool)
    ensures r <==> Accepts(Tokens(pattern0, escapes), s0)
    decreases |pattern0|, 1
  {
    EatsIsAccepts(Tokens(pattern0, escapes), s0);
    ghost var accepted := Eats(Tokens(pattern0, escapes), s0);
    var pattern, s := pattern0, s0;
    while |pattern| > 0
      invariant |pattern| <= |pattern0|
      invariant accepted <==> Eats(Tokens(pattern, escapes), s)
      decreases |pattern|
    {
      ghost var tail := Tokens(pattern[1..], escapes);
      if pattern[0] == STAR {
        r := MatchRun(pattern, s, escapes);
        EatsIsAccepts(Tokens(pattern, escapes), s);
        return;
      } else if pattern[0] == QUESTION {
        EatsHead(Any, tail, s);
        if |s| == 0 { return false; }
        s := s[1..];
        pattern := pattern[1..];
      } else if pattern[0] == OPEN {
        if |s| == 0 { NoTextLeft(Tokens(pattern, escapes)); return false; }
        var end := IndexByte(pattern, CLOSE);
        if end < 0 {
          EatsHead(Literal(OPEN), tail, s);
          if s[0] != OPEN { return false; }
          s := s[1..];
          pattern := pattern[1..];
          continue;
        }
        var body := pattern[1..end];
        ClassTokens(pattern, escapes, end);
        EatsHead(ClassToken(body), Tokens(pattern[end + 1..], escapes), s);
        var neg := false;
        if |body| > 0 && body[0] == CARET {
          neg := true;
          body := body[1..];
        }
        var matched := MatchClass(body, s[0]);
        if matched == neg { return false; }
        s := s[1..];
        pattern := pattern[end + 1..];
      } else if escapes && pattern[0] == BACKSLASH {
        if |pattern| > 1 {
          EatsHead(Literal(pattern[1]), Tokens(pattern[2..], escapes), s);
          if |s| == 0 || s[0] != pattern[1] { return false; }
          s := s[1..];
          pattern := pattern[2..];
        } else {
          EatsHead(Literal(BACKSLASH), tail, s);
          if |s| == 0 || s[0] != BACKSLASH { return false; }
          s := s[1..];
          pattern := pattern[1..];
        }
      } else {
        EatsHead(Literal(pattern[0]), tail, s);
        if |s| == 0 || s[0] != pattern[0] { return false; }
        s := s[1..];
        pattern := pattern[1..];
      }
    }
    return |s| == 0;
  }

  /** The loop's star case, which never falls back into the loop. */
  method MatchRun(pattern0: Bytes, s: Bytes, escapes: bool) returns (r: bool)
    requires pattern0 != [] && pattern0[0] == STAR
    ensures r <==> Accepts(Tokens(pattern0, escapes), s)
    decreases |pattern0|, 0
  {
    EatsIsAccepts(Tokens(pattern0, escapes), s);
    var pattern := pattern0;
    while |pattern| > 1 && pattern[1] == STAR
      invariant 1 <= |pattern| <= |pattern0| && pattern[0] == STAR
      invariant Eats(Tokens(pattern0, escapes), s) <==> Eats(Tokens(pattern, escapes), s)
      decreases |pattern|
    {
      RunTwice(Tokens(pattern[2..], escapes), s);
      assert pattern[1..][1..] == pattern[2..];
      assert Tokens(pattern, escapes) == [Run, Run] + Tokens(pattern[2..], escapes);
      pattern := pattern[1..];
    }
    EatsHead(Run, Tokens(pattern[1..], escapes), s);
    if |pattern| == 1 {
      assert Eats([], s[|s|..]);
      return true;
    }
    for i := 0 to |s| + 1
      invariant NoneBefore(Tokens(pattern[1..], escapes), s, i)
    {
      var m := MatchBytes(pattern[1..], s[i..], escapes);
      EatsIsAccepts(Tokens(pattern[1..], escapes), s[i..]);
      if m { return true; }
      NoneBeforeNext(Tokens(pattern[1..], escapes), s, i);
    }
    return false;
  }

  ghost predicate NoneBefore(ts: seq<Token>, s: Bytes, i: nat)
    requires i <= |s| + 1
  {
    forall j :: 0 <= j < i ==> !Eats(ts, s[j..])
  }

  lemma NoneBeforeNext(ts: seq<Token>, s: Bytes, i: nat)
    requires i <= |s| && NoneBefore(ts, s, i) && !Eats(ts, s[i..])
    ensures NoneBefore(ts, s, i + 1)
  {}

  /** The keyspace's matcher (KEYS, SCAN). */
  method GlobMatch(pattern: Bytes, s: Bytes) returns (r: bool)
    ensures r <==> Accepts(Tokens(pattern, true), s)
  {
    r := MatchBytes(pattern, s, true);
  }

  /** The pub/sub copy (PSUBSCRIBE), which knows no escapes. */
  method PubSubGlobMatch(pattern: Bytes, s: Bytes) returns (r: bool)
    ensures r <==> Accepts(Tokens(pattern, false), s)
  {
    r := MatchBytes(pattern, s, false);
  }

  lemma NoTextLeft(ts: seq<Token>)
    requires ts != [] && ts[0] != Run
    ensures !Eats(ts, [])
  {}

  /** The keyspace treats the pattern "*" specially; this is no exception to the matcher. */
  lemma StarAcceptsAll(s: Bytes)
    ensures Accepts(Tokens([STAR], true), s)
  {
    assert [STAR][1..] == [];
    assert Tokens([STAR], true) == [Run] + Tokens([], true);
    EatsHead(Run, [], s);
    assert Eats([], s[|s|..]);
    EatsIsAccepts(Tokens([STAR], true), s);
  }
}

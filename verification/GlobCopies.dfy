/** When the two copies of the matcher agree: the keyspace's, with backslash escapes,
    and the pub/sub one, without. */
module GlobCopies {
  import opened Base
  import opened Glob

  // ---------------------------------------------------- reading one token

  /** A backslash at the front that quotes the byte after it. */
  predicate Quoted(p: Bytes) {
    |p| > 1 && p[0] == BACKSLASH
  }

  /** The first token of a pattern read without escapes, and what is left of the pattern. */
  ghost function First(p: Bytes): (Token, Bytes)
    requires p != []
  {
    if p[0] == OPEN && CLOSE in p then
      FirstIndexExists(p, CLOSE);
      var end :| FirstAt(p, CLOSE, end);
      (ClassToken(p[1..end]), p[end + 1..])
    else (if p[0] == STAR then Run else if p[0] == QUESTION then Any else Literal(p[0]), p[1..])
  }

  lemma ReadOne(p: Bytes, escapes: bool)
    requires p != []
    ensures Tokens(p, escapes) ==
      if escapes && Quoted(p) then [Literal(p[1])] + Tokens(p[2..], escapes)
      else [First(p).0] + Tokens(First(p).1, escapes)
    ensures |First(p).1| < |p|
    ensures p[0] == BACKSLASH ==> First(p) == (Literal(BACKSLASH), p[1..])
  {
    if p[0] == OPEN && CLOSE in p {
      FirstIndexExists(p, CLOSE);
      var end :| FirstAt(p, CLOSE, end) && First(p) == (ClassToken(p[1..end]), p[end + 1..]);
      ClassTokens(p, escapes, end);
    }
  }

  /** Some backslash stands where a token begins, with a byte after it to quote. */
  ghost predicate ActiveEscape(p: Bytes)
    decreases |p|
  {
    if p == [] then false
    else
      ReadOne(p, false);
      Quoted(p) || ActiveEscape(First(p).1)
  }

  // ------------------------------------------------- the letters of a pattern

  ghost function Letters(t: Token): set<Byte> {
    set c: Byte | Fits(t, [c])
  }

  /** What each token that takes exactly one byte lets through. */
  ghost function Spelled(ts: seq<Token>): seq<set<Byte>> {
    if ts == [] then []
    else (if ts[0] == Run then [] else [Letters(ts[0])]) + Spelled(ts[1..])
  }

  lemma SpelledCons(t: Token, ts: seq<Token>)
    ensures Spelled([t] + ts) == if t == Run then Spelled(ts) else [Letters(t)] + Spelled(ts)
    ensures t.Literal? ==> Letters(t) == {t.b}
  {
    assert ([t] + ts)[1..] == ts;
  }

  function Slashes(k: nat): seq<set<Byte>> {
    seq(k, _ => {BACKSLASH})
  }

  lemma SpelledOne(p: Bytes, escapes: bool)
    requires p != [] && !(escapes && Quoted(p))
    ensures var (t, rest) := First(p);
      Spelled(Tokens(p, escapes))
      == if t == Run then Spelled(Tokens(rest, escapes)) else [Letters(t)] + Spelled(Tokens(rest, escapes))
  {
    ReadOne(p, escapes);
    SpelledCons(First(p).0, Tokens(First(p).1, escapes));
  }

  /** A quoted pair is one letter with escapes, and a backslash and more without. */
  lemma SpelledQuoted(p: Bytes)
    requires Quoted(p)
    ensures Spelled(Tokens(p, true)) == [{p[1]}] + Spelled(Tokens(p[2..], true))
    ensures Spelled(Tokens(p, false)) == [{BACKSLASH}] + Spelled(Tokens(p[1..], false))
    ensures p[1] == BACKSLASH ==> Spelled(Tokens(p[1..], false)) == [{BACKSLASH}] + Spelled(Tokens(p[2..], false))
  {
    ReadOne(p, true);
    SpelledCons(Literal(p[1]), Tokens(p[2..], true));
    ReadOne(p, false);
    SpelledCons(Literal(BACKSLASH), Tokens(p[1..], false));
    ReadOne(p[1..], false);
    assert p[1..][1..] == p[2..];
    SpelledCons(Literal(BACKSLASH), Tokens(p[2..], false));
  }

  /** Once ahead by quoting a backslash, the reading without escapes stays ahead. */
  lemma {:induction false} NeverCatchesUp(p: Bytes, k: nat)
    requires k >= 1
    ensures Spelled(Tokens(p, true)) != Slashes(k) + Spelled(Tokens(p, false))
    decreases |p|
  {
    if p != [] && Spelled(Tokens(p, true)) == Slashes(k) + Spelled(Tokens(p, false)) {
      ReadOne(p, false);
      if Quoted(p) {
        SpelledQuoted(p);
        SameHead(p[1], k, Spelled(Tokens(p[2..], true)), Spelled(Tokens(p, false)));
        var ys := Spelled(Tokens(p[2..], false));
        Shift(k, {BACKSLASH}, [{BACKSLASH}] + ys, Spelled(Tokens(p[2..], true)));
        Join(k, ys);
        NeverCatchesUp(p[2..], k + 1);
      } else {
        var (t, rest) := First(p);
        SpelledOne(p, true);
        SpelledOne(p, false);
        if t != Run { Shift(k, Letters(t), Spelled(Tokens(rest, false)), Spelled(Tokens(rest, true))); }
        NeverCatchesUp(rest, k);
      }
    }
  }

  lemma SameHead(c: Byte, k: nat, xs: seq<set<Byte>>, ys: seq<set<Byte>>)
    requires k >= 1 && [{c}] + xs == Slashes(k) + ys
    ensures c == BACKSLASH
  {
    assert ([{c}] + xs)[0] == (Slashes(k) + ys)[0];
    assert c in {c};
  }

  lemma Shift(k: nat, x: set<Byte>, ys: seq<set<Byte>>, zs: seq<set<Byte>>)
    requires k >= 1 && [x] + zs == Slashes(k) + ([x] + ys)
    ensures x == {BACKSLASH} && zs == Slashes(k) + ys
  {
    assert ([x] + zs)[0] == Slashes(k)[0];
    assert zs == ([x] + zs)[1..];
    assert Slashes(k) + ([{BACKSLASH}] + ys) == [{BACKSLASH}] + (Slashes(k) + ys);
  }

  lemma Join(k: nat, ys: seq<set<Byte>>)
    ensures Slashes(k) + ([{BACKSLASH}] + ys) == Slashes(k + 1) + ys
  {}

  lemma {:induction false} SameLettersExactlyWhen(p: Bytes)
    ensures !ActiveEscape(p) ==> Tokens(p, true) == Tokens(p, false)
    ensures ActiveEscape(p) ==> Spelled(Tokens(p, true)) != Spelled(Tokens(p, false))
    decreases |p|
  {
    if p != [] {
      ReadOne(p, true);
      ReadOne(p, false);
      if !Quoted(p) {
        SpelledOne(p, true);
        SpelledOne(p, false);
        var (t, rest) := First(p);
        SameLettersExactlyWhen(rest);
        if t != Run { TailsDiffer(Letters(t), Spelled(Tokens(rest, true)), Spelled(Tokens(rest, false))); }
      } else if Spelled(Tokens(p, true)) == Spelled(Tokens(p, false)) {
        SpelledQuoted(p);
        assert Slashes(1) == [{BACKSLASH}];
        SameHead(p[1], 1, Spelled(Tokens(p[2..], true)), Spelled(Tokens(p[1..], false)));
        TailsDiffer({BACKSLASH}, Spelled(Tokens(p[2..], true)), Spelled(Tokens(p[1..], false)));
        NeverCatchesUp(p[2..], 1);
      }
    }
  }

  lemma TailsDiffer(x: set<Byte>, ys: seq<set<Byte>>, zs: seq<set<Byte>>)
    ensures [x] + ys == [x] + zs <==> ys == zs
  {
    assert ([x] + ys)[1..] == ys && ([x] + zs)[1..] == zs;
  }

  /** The two copies read a pattern as the same tokens exactly when no backslash in it quotes. */
  lemma CopiesAgree(p: Bytes)
    ensures Tokens(p, true) == Tokens(p, false) <==> !ActiveEscape(p)
  {
    SameLettersExactlyWhen(p);
  }

  // ------------------------------------------------------ from tokens to texts

  lemma {:induction false} EatsEnough(ts: seq<Token>, s: Bytes)
    requires Eats(ts, s)
    ensures |s| >= |Spelled(ts)| && {} !in Spelled(ts)
  {
    if ts != [] {
      if ts[0] == Run {
        var i :| 0 <= i <= |s| && Eats(ts[1..], s[i..]);
        EatsEnough(ts[1..], s[i..]);
      } else {
        EatsEnough(ts[1..], s[1..]);
        assert s[..1] == [s[0]] && s[0] in Letters(ts[0]);
      }
    }
  }

  /** Among the shortest texts the letters decide, position by position. */
  lemma {:induction false} ShortestTexts(ts: seq<Token>, s: Bytes)
    requires |s| == |Spelled(ts)|
    ensures Eats(ts, s) <==> forall i :: 0 <= i < |s| ==> s[i] in Spelled(ts)[i]
  {
    if ts != [] {
      if ts[0] == Run {
        ShortestTexts(ts[1..], s);
        forall i | 0 <= i <= |s| && Eats(ts[1..], s[i..]) ensures i == 0 { EatsEnough(ts[1..], s[i..]); }
        assert s[0..] == s;
      } else {
        ShortestTexts(ts[1..], s[1..]);
        assert s[..1] == [s[0]];
        assert forall i :: 1 <= i < |s| ==> s[i] == s[1..][i - 1] && Spelled(ts)[i] == Spelled(ts[1..])[i - 1];
      }
    }
  }

  lemma {:induction false} SomeText(sets: seq<set<Byte>>) returns (s: Bytes)
    requires {} !in sets
    ensures |s| == |sets| && forall i :: 0 <= i < |s| ==> s[i] in sets[i]
  {
    if sets == [] {
      s := [];
    } else {
      var rest := SomeText(sets[1..]);
      assert sets[0] in sets && sets[0] != {};
      var c :| c in sets[0];
      s := [c] + rest;
    }
  }

  ghost predicate SameTexts(a: seq<Token>, b: seq<Token>) {
    forall s :: Eats(a, s) <==> Eats(b, s)
  }

  /** Token lists that let something through and accept the same texts have the same letters. */
  lemma TextsTellLetters(a: seq<Token>, b: seq<Token>)
    requires SameTexts(a, b) && {} !in Spelled(a) && {} !in Spelled(b)
    ensures Spelled(a) == Spelled(b)
  {
    var s := SomeText(Spelled(a));
    var t := SomeText(Spelled(b));
    ShortestTexts(a, s);
    ShortestTexts(b, t);
    EatsEnough(b, s);
    EatsEnough(a, t);
    ShortestTexts(b, s);
    forall i | 0 <= i < |s| ensures Spelled(a)[i] == Spelled(b)[i] {
      forall c ensures c in Spelled(a)[i] <==> c in Spelled(b)[i] {
        ShortestTexts(a, s[i := c]);
        ShortestTexts(b, s[i := c]);
        assert Eats(a, s[i := c]) <==> Eats(b, s[i := c]);
      }
    }
  }

  ghost predicate AcceptTheSame(p: Bytes) {
    forall s :: Accepts(Tokens(p, true), s) <==> Accepts(Tokens(p, false), s)
  }

  lemma SameTextsAre(p: Bytes)
    ensures AcceptTheSame(p) <==> SameTexts(Tokens(p, true), Tokens(p, false))
  {
    var a, b := Tokens(p, true), Tokens(p, false);
    forall s ensures (Eats(a, s) <==> Accepts(a, s)) && (Eats(b, s) <==> Accepts(b, s)) {
      EatsIsAccepts(a, s);
      EatsIsAccepts(b, s);
    }
  }

  /** The copies accept the same texts exactly when no backslash in the pattern quotes, or
      both readings contain a class that lets nothing through, so that neither accepts any. */
  lemma CopiesAcceptTheSameExactlyWhen(p: Bytes)
    ensures AcceptTheSame(p) <==>
      !ActiveEscape(p) || ({} in Spelled(Tokens(p, true)) && {} in Spelled(Tokens(p, false)))
  {
    var a, b := Tokens(p, true), Tokens(p, false);
    SameTextsAre(p);
    SameLettersExactlyWhen(p);
    if {} in Spelled(a) && {} in Spelled(b) {
      BothAcceptNothing(a, b);
    } else if SameTexts(a, b) {
      AcceptsSomethingToo(a, b);
      AcceptsSomethingToo(b, a);
      TextsTellLetters(a, b);
    }
  }

  lemma BothAcceptNothing(a: seq<Token>, b: seq<Token>)
    requires {} in Spelled(a) && {} in Spelled(b)
    ensures SameTexts(a, b)
  {
    forall s ensures !Eats(a, s) && !Eats(b, s) {
      if Eats(a, s) { EatsEnough(a, s); }
      if Eats(b, s) { EatsEnough(b, s); }
    }
  }

  lemma AcceptsSomethingToo(a: seq<Token>, b: seq<Token>)
    requires SameTexts(a, b)
    ensures {} !in Spelled(a) ==> {} !in Spelled(b)
  {
    if {} !in Spelled(a) {
      var s := SomeText(Spelled(a));
      ShortestTexts(a, s);
      assert Eats(b, s);
      EatsEnough(b, s);
    }
  }

  /** A case: the pattern \* means a star to the keyspace only. */
  lemma CopiesDifferOnEscape()
    ensures Accepts(Tokens([BACKSLASH, STAR], true), [STAR])
    ensures !Accepts(Tokens([BACKSLASH, STAR], false), [STAR])
  {
    var p := [BACKSLASH, STAR];
    var s: Bytes := [STAR];
    assert p[2..] == [] && p[1..] == [STAR] && [STAR][1..] == [];
    assert Tokens(p, true) == [Literal(STAR)] + Tokens([], true);
    assert Tokens(p, false) == [Literal(BACKSLASH)] + Tokens([STAR], false);
    EatsHead(Literal(STAR), [], s);
    EatsHead(Literal(BACKSLASH), Tokens([STAR], false), s);
    EatsIsAccepts(Tokens(p, true), s);
    EatsIsAccepts(Tokens(p, false), s);
  }
}

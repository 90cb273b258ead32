/** The RESP2 wire format: replies written as bytes, and commands read back from
    arrays of bulk strings (Redis serialization protocol specification, sections
    "Arrays" and "Bulk strings"). */
module Resp {
  import opened Base
  import opened Numbers

  const CR: Byte := 13
  const LF: Byte := 10
  const STAR: Byte := 42
  const DOLLAR: Byte := 36
  const COLON: Byte := 58
  const CRLF: Bytes := [CR, LF]

  // -------------------------------------------------------------------- writing

  datatype Reply =
    | Simple(text: Bytes)
    | Error(text: Bytes)
    | Int(n: int)
    | Bulk(value: Option<Bytes>)
    | NullArray
    | Array(items: seq<Reply>)

  function Encoded(r: Reply): Bytes
    decreases r, 0
  {
    match r
    case Simple(s) => [PLUS] + s + CRLF
    case Error(s) => [MINUS] + s + CRLF
    case Int(n) => [COLON] + Itoa(n) + CRLF
    case Bulk(None) => [DOLLAR] + Itoa(-1) + CRLF
    case Bulk(Some(b)) => [DOLLAR] + Itoa(|b|) + CRLF + b + CRLF
    case NullArray => [STAR] + Itoa(-1) + CRLF
    case Array(items) => [STAR] + Itoa(|items|) + CRLF + EncodedAll(items)
  }

  function EncodedAll(items: seq<Reply>): Bytes
    decreases items
  {
    if items == [] then [] else Encoded(items[0]) + EncodedAll(items[1..])
  }

  lemma {:induction false} EncodedAppend(a: seq<Reply>, b: seq<Reply>)
    ensures EncodedAll(a + b) == EncodedAll(a) + EncodedAll(b)
  {
    if a == [] {
      assert a + b == b;
    } else {
      assert (a + b)[1..] == a[1..] + b;
      EncodedAppend(a[1..], b);
    }
  }

  class Writer {
    var out: Bytes

    constructor () ensures out == [] { out := []; }

    method WriteString(s: Bytes)
      modifies this
      ensures out == old(out) + s
    {
      out := out + s;
    }

    method WriteBulk(b: Option<Bytes>)
      modifies this
      ensures out == old(out) + Encoded(Bulk(b))
    {
      if b == None {
        WriteString([DOLLAR, MINUS, 49, CR, LF]);
        return;
      }
      WriteString([DOLLAR] + Itoa(|b.value|) + CRLF);
      WriteString(b.value);
      WriteString(CRLF);
    }

    method WriteArrayHeader(n: int)
      modifies this
      ensures out == old(out) + ([STAR] + Itoa(n) + CRLF)
    {
      WriteString([STAR] + Itoa(n) + CRLF);
    }

    /** A composite reply, its parts written one after another. */
    method Write(r: Reply)
      modifies this
      ensures out == old(out) + Encoded(r)
      decreases r
    {
      match r
      case Simple(s) => WriteString([PLUS] + s + CRLF);
      case Error(s) => WriteString([MINUS] + s + CRLF);
      case Int(n) => WriteString([COLON] + Itoa(n) + CRLF);
      case Bulk(b) => WriteBulk(b);
      case NullArray => WriteArrayHeader(-1);
      case Array(items) =>
        WriteArrayHeader(|items|);
        WriteItems(items);
        AppendTwice(old(out), [STAR] + Itoa(|items|) + CRLF, EncodedAll(items));
    }

    method WriteItems(items: seq<Reply>)
      modifies this
      ensures out == old(out) + EncodedAll(items)
      decreases items
    {
      for i := 0 to |items|
        invariant out == old(out) + EncodedAll(items[..i])
      {
        Write(items[i]);
        EncodedNext(items, i);
      }
      assert items[..|items|] == items;
    }
  }

  lemma AppendTwice(a: Bytes, b: Bytes, c: Bytes)
    ensures a + b + c == a + (b + c)
  {}

  lemma EncodedNext(items: seq<Reply>, i: nat)
    requires i < |items|
    ensures EncodedAll(items[..i + 1]) == EncodedAll(items[..i]) + Encoded(items[i])
  {
    assert items[..i + 1] == items[..i] + [items[i]];
    EncodedAppend(items[..i], [items[i]]);
    assert EncodedAll([items[i]]) == Encoded(items[i]) + EncodedAll([]);
  }

  /** A command on the wire: an array of bulk strings. */
  function CommandBytes(args: seq<Option<Bytes>>): Bytes {
    Encoded(Array(Bulks(args)))
  }

  function Bulks(args: seq<Option<Bytes>>): (r: seq<Reply>)
    ensures |r| == |args|
  {
    if args == [] then [] else [Bulk(args[0])] + Bulks(args[1..])
  }

  // -------------------------------------------------------------------- reading

  /** The input ended too early, at a boundary or inside a payload, or is no RESP, or announces
      a length to which two cannot be added in 64 bits, so that making the buffer panics. */
  datatype ReadError = EOF | UnexpectedEOF | Protocol | Overflow

  datatype Read<+T> = Got(value: T, rest: Bytes) | Failed(error: ReadError)

  datatype Request = Args(args: seq<Bytes>) | Inline(line: Bytes)

  predicate Trimmable(b: Byte) { b == CR || b == LF }

  function TrimRight(line: Bytes): Bytes {
    if line != [] && Trimmable(line[|line| - 1]) then TrimRight(line[..|line| - 1]) else line
  }

  /** How many bytes the first line takes, its line feed included. */
  function LineLength(b: Bytes): (n: Option<nat>)
    ensures n.Some? ==> 0 < n.value <= |b| && b[n.value - 1] == LF && LF !in b[..n.value - 1]
    ensures n.None? ==> LF !in b
  {
    if b == [] then None
    else if b[0] == LF then Some(1)
    else match LineLength(b[1..])
      case None => None
      case Some(n) => assert b[..n] == [b[0]] + b[1..][..n - 1]; Some(n + 1)
  }

  function ParseLine(b: Bytes): Read<Bytes> {
    match LineLength(b)
    case None => Failed(EOF)
    case Some(n) => Got(TrimRight(b[..n]), b[n..])
  }

  /** The number after the type byte, if the line has that form. */
  function Header(line: Bytes, kind: Byte): Option<int> {
    if line == [] || line[0] != kind then None else Atoi(line[1..])
  }

  function ParseItem(b: Bytes): Read<Bytes> {
    match ParseLine(b)
    case Failed(e) => Failed(e)
    case Got(line, rest) =>
      match Header(line, DOLLAR)
      case None => Failed(Protocol)
      case Some(n) =>
        if n < 0 then Got([], rest)
        else if n > MAX_INT - 2 then Failed(Overflow)
        else ParsePayload(rest, n)
  }

  /** The announced bytes, and two more that are not looked at. */
  function ParsePayload(b: Bytes, n: nat): Read<Bytes> {
    if |b| >= n + 2 then Got(b[..n], b[n + 2..]) else Failed(if b == [] then EOF else UnexpectedEOF)
  }

  function ParseItems(b: Bytes, n: nat): Read<seq<Bytes>>
    decreases n
  {
    if n == 0 then Got([], b)
    else match ParseItem(b)
      case Failed(e) => Failed(e)
      case Got(item, rest) =>
        match ParseItems(rest, n - 1)
        case Failed(e) => Failed(e)
        case Got(items, end) => Got([item] + items, end)
  }

  function ParseArray(b: Bytes): Read<seq<Bytes>> {
    match ParseLine(b)
    case Failed(e) => Failed(e)
    case Got(line, rest) =>
      match Header(line, STAR)
      case None => Failed(Protocol)
      case Some(n) => if n <= 0 then Got([], rest) else ParseItems(rest, n)
  }

  function ParseCommand(b: Bytes): Read<Request> {
    if b == [] then Failed(EOF)
    else if b[0] == STAR then
      match ParseArray(b)
      case Failed(e) => Failed(e)
      case Got(args, rest) => Got(Args(args), rest)
    else
      match ParseLine(b)
      case Failed(e) => Failed(e)
      case Got(line, rest) => Got(Inline(line), rest)
  }

  /** The buffered connection, read in place. */
  class Reader {
    const input: Bytes
    var pos: nat

    constructor (input: Bytes)
      ensures this.input == input && pos == 0
    {
      this.input, pos := input, 0;
    }

    ghost predicate Valid() reads this { pos <= |input| }

    ghost function Unread(): Bytes
      requires Valid()
      reads this
    {
      input[pos..]
    }

    method ReadLine() returns (r: Read<Bytes>)
      requires Valid()
      modifies this
      ensures Valid() && r == ParseLine(old(Unread()))
      ensures r.Got? ==> Unread() == r.rest
    {
      var start := pos;
      while pos < |input| && input[pos] != LF
        invariant start <= pos <= |input| && forall i :: start <= i < pos ==> input[i] != LF
      {
        pos := pos + 1;
      }
      if pos == |input| {
        NoLine(input, start);
        return Failed(EOF);
      }
      LineAt(input, start, pos);
      pos := pos + 1;
      r := Got(TrimRight(input[start..pos]), input[pos..]);
    }

    method ReadItem() returns (r: Read<Bytes>)
      requires Valid()
      modifies this
      ensures Valid() && r == ParseItem(old(Unread()))
      ensures r.Got? ==> Unread() == r.rest
    {
      var line := ReadLine();
      if line.Failed? { return line; }
      var hdr := line.value;
      if |hdr| < 1 || hdr[0] != DOLLAR { return Failed(Protocol); }
      var blen := Atoi(hdr[1..]);
      if blen == None { return Failed(Protocol); }
      if blen.value < 0 { return Got([], input[pos..]); }
      OverflowsWhen(blen.value);
      if Wrap64(blen.value + 2) < 0 { return Failed(Overflow); }
      r := ReadPayload(blen.value);
    }

    method ReadPayload(blen: nat) returns (r: Read<Bytes>)
      requires Valid()
      modifies this
      ensures Valid() && r == ParsePayload(old(Unread()), blen)
      ensures r.Got? ==> Unread() == r.rest
    {
      var left := |input| - pos;
      if left < blen + 2 {
        pos := |input|;
        return Failed(if left == 0 then EOF else UnexpectedEOF);
      }
      ghost var rest := input[pos..];
      var buf := input[pos..pos + blen + 2];
      pos := pos + blen + 2;
      assert buf[..blen] == rest[..blen] && rest[blen + 2..] == input[pos..];
      r := Got(buf[..blen], input[pos..]);
    }

    method ReadArrayCommand() returns (r: Read<seq<Bytes>>)
      requires Valid()
      modifies this
      ensures Valid() && r == ParseArray(old(Unread()))
      ensures r.Got? ==> Unread() == r.rest
    {
      var line := ReadLine();
      if line.Failed? { return Failed(line.error); }
      if |line.value| < 1 || line.value[0] != STAR { return Failed(Protocol); }
      var n := Atoi(line.value[1..]);
      if n == None { return Failed(Protocol); }
      if n.value <= 0 { return Got([], input[pos..]); }
      r := ReadItems(n.value);
    }

    method ReadItems(n: nat) returns (r: Read<seq<Bytes>>)
      requires Valid()
      modifies this
      ensures Valid() && r == ParseItems(old(Unread()), n)
      ensures r.Got? ==> Unread() == r.rest
    {
      ghost var whole := ParseItems(Unread(), n);
      var args: seq<Bytes> := [];
      PrependNothing(whole);
      for i := 0 to n
        invariant Valid() && whole == Prepend(args, ParseItems(Unread(), n - i))
      {
        PrependMore(args, Unread(), n - i);
        var item := ReadItem();
        if item.Failed? { return Failed(item.error); }
        args := args + [item.value];
      }
      assert args + [] == args;
      r := Got(args, input[pos..]);
    }

    method ReadCommand() returns (r: Read<Request>)
      requires Valid()
      modifies this
      ensures Valid() && r == ParseCommand(old(Unread()))
      ensures r.Got? ==> Unread() == r.rest
    {
      if pos == |input| { return Failed(EOF); }
      assert Unread()[0] == input[pos];
      if input[pos] == STAR {
        var a := ReadArrayCommand();
        if a.Failed? { return Failed(a.error); }
        return Got(Args(a.value), a.rest);
      }
      var line := ReadLine();
      if line.Failed? { return Failed(line.error); }
      return Got(Inline(line.value), line.rest);
    }
  }

  lemma OverflowsWhen(n: nat)
    requires n <= MAX_INT
    ensures Wrap64(n + 2) < 0 <==> n > MAX_INT - 2
  {}

  lemma LineAt(b: Bytes, start: nat, pos: nat)
    requires start <= pos < |b| && b[pos] == LF && forall i :: start <= i < pos ==> b[i] != LF
    ensures ParseLine(b[start..]) == Got(TrimRight(b[start..pos + 1]), b[pos + 1..])
  {
    assert b[start..][..pos - start] == b[start..pos];
    LineLengthIs(b[start..], pos + 1 - start);
    assert b[start..][..pos + 1 - start] == b[start..pos + 1] && b[start..][pos + 1 - start..] == b[pos + 1..];
  }

  lemma NoLine(b: Bytes, start: nat)
    requires start <= |b| && forall i :: start <= i < |b| ==> b[i] != LF
    ensures ParseLine(b[start..]) == Failed(EOF)
  {
    assert LF !in b[start..];
  }

  lemma LineLengthIs(b: Bytes, n: nat)
    requires 0 < n <= |b| && b[n - 1] == LF && LF !in b[..n - 1]
    ensures LineLength(b) == Some(n)
  {
    assert LF in b;
    var m := LineLength(b).value;
    forall i | 0 <= i < n - 1 ensures b[i] != LF { assert b[i] == b[..n - 1][i]; }
    forall i | 0 <= i < m - 1 ensures b[i] != LF { assert b[i] == b[..m - 1][i]; }
  }

  function Prepend(args: seq<Bytes>, r: Read<seq<Bytes>>): Read<seq<Bytes>> {
    match r
    case Failed(e) => Failed(e)
    case Got(items, rest) => Got(args + items, rest)
  }

  lemma PrependNothing(r: Read<seq<Bytes>>)
    ensures Prepend([], r) == r
  {
    match r
    case Failed(e) =>
    case Got(items, rest) => assert [] + items == items;
  }

  lemma PrependMore(args: seq<Bytes>, b: Bytes, n: nat)
    requires n > 0
    ensures match ParseItem(b)
      case Failed(e) => Prepend(args, ParseItems(b, n)) == Failed(e)
      case Got(item, rest) => Prepend(args, ParseItems(b, n)) == Prepend(args + [item], ParseItems(rest, n - 1))
  {
    match ParseItem(b)
    case Failed(e) =>
    case Got(item, rest) =>
      match ParseItems(rest, n - 1)
      case Failed(e) =>
      case Got(items, end) => assert args + ([item] + items) == args + [item] + items;
  }

  // ---------------------------------------------------------------- round trip

  lemma TrimmedLine(s: Bytes)
    requires s != [] && !Trimmable(s[|s| - 1])
    ensures TrimRight(s + CRLF) == s
  {
    assert (s + CRLF)[..|s| + 1] == s + [CR] && (s + [CR])[..|s|] == s;
    assert TrimRight(s + CRLF) == TrimRight(s + [CR]) == TrimRight(s) == s;
  }

  lemma LineReadBack(s: Bytes, rest: Bytes)
    requires s != [] && LF !in s && !Trimmable(s[|s| - 1])
    ensures ParseLine(s + CRLF + rest) == Got(s, rest)
  {
    var b := s + CRLF + rest;
    assert b[..|s| + 1] == s + [CR];
    LineLengthIs(b, |s| + 2);
    assert b[..|s| + 2] == s + CRLF;
    assert b[|s| + 2..] == rest;
    TrimmedLine(s);
    assert ParseLine(b) == Got(TrimRight(b[..|s| + 2]), b[|s| + 2..]);
  }

  lemma HeaderReadBack(kind: Byte, n: int, rest: Bytes)
    requires -MAX_INT <= n <= MAX_INT && !Trimmable(kind)
    ensures ParseLine([kind] + Itoa(n) + CRLF + rest) == Got([kind] + Itoa(n), rest)
    ensures Header([kind] + Itoa(n), kind) == Some(n)
  {
    var line := [kind] + Itoa(n);
    LineReadBack(line, rest);
    AtoiItoa(n);
    assert line[1..] == Itoa(n);
  }

  /** Sizes a Go slice can have, with room for the two bytes behind a payload. */
  predicate Representable(args: seq<Option<Bytes>>) {
    |args| <= MAX_INT && forall i :: 0 <= i < |args| && args[i].Some? ==> |args[i].value| <= MAX_INT - 2
  }

  lemma ItemReadBack(arg: Option<Bytes>, rest: Bytes)
    requires arg.Some? ==> |arg.value| <= MAX_INT - 2
    ensures ParseItem(Encoded(Bulk(arg)) + rest) == Got(arg.GetOr([]), rest)
  {
    match arg
    case None => HeaderReadBack(DOLLAR, -1, rest);
    case Some(b) =>
      HeaderReadBack(DOLLAR, |b|, b + CRLF + rest);
      Regroup([DOLLAR] + Itoa(|b|), b, rest);
  }

  lemma Regroup(header: Bytes, payload: Bytes, rest: Bytes)
    ensures header + CRLF + payload + CRLF + rest == header + CRLF + (payload + CRLF + rest)
    ensures (payload + CRLF + rest)[..|payload|] == payload && (payload + CRLF + rest)[|payload| + 2..] == rest
  {}

  function Decoded(args: seq<Option<Bytes>>): seq<Bytes> {
    if args == [] then [] else [args[0].GetOr([])] + Decoded(args[1..])
  }

  lemma {:induction false} ItemsReadBack(args: seq<Option<Bytes>>, rest: Bytes)
    requires Representable(args)
    ensures ParseItems(EncodedAll(Bulks(args)) + rest, |args|) == Got(Decoded(args), rest)
  {
    if args != [] {
      assert Bulks(args)[1..] == Bulks(args[1..]);
      var more := EncodedAll(Bulks(args[1..])) + rest;
      assert EncodedAll(Bulks(args)) + rest == Encoded(Bulk(args[0])) + more;
      ItemReadBack(args[0], more);
      ItemsReadBack(args[1..], rest);
    }
  }

  /** What was written as an array of bulk strings is read back as the same list, and
      exactly its bytes are consumed; a null bulk string comes back as empty. */
  lemma CommandRoundTrip(args: seq<Option<Bytes>>, rest: Bytes)
    requires Representable(args)
    ensures ParseCommand(CommandBytes(args) + rest) == Got(Args(Decoded(args)), rest)
  {
    var body := EncodedAll(Bulks(args));
    HeaderReadBack(STAR, |args|, body + rest);
    assert CommandBytes(args) + rest == [STAR] + Itoa(|args|) + CRLF + (body + rest);
    ItemsReadBack(args, rest);
    assert (CommandBytes(args) + rest)[0] == STAR;
  }

  lemma {:induction false} DecodedPlain(args: seq<Bytes>)
    ensures Decoded(Plain(args)) == args
  {
    if args != [] { DecodedPlain(args[1..]); assert Plain(args)[1..] == Plain(args[1..]); }
  }

  function Plain(args: seq<Bytes>): seq<Option<Bytes>> {
    seq(|args|, i requires 0 <= i < |args| => Some(args[i]))
  }

  // ----------------------------------------------------------------- pipelining

  function Pipelined(cmds: seq<seq<Bytes>>): Bytes {
    if cmds == [] then [] else CommandBytes(Plain(cmds[0])) + Pipelined(cmds[1..])
  }

  /** The requests a connection loop sees, one after another, as many as asked for. */
  function ParseCommands(b: Bytes, n: nat): Read<seq<Request>>
    decreases n
  {
    if n == 0 then Got([], b)
    else match ParseCommand(b)
      case Failed(e) => Failed(e)
      case Got(c, rest) =>
        match ParseCommands(rest, n - 1)
        case Failed(e) => Failed(e)
        case Got(cs, end) => Got([c] + cs, end)
  }

  function AsRequests(cmds: seq<seq<Bytes>>): seq<Request> {
    if cmds == [] then [] else [Args(cmds[0])] + AsRequests(cmds[1..])
  }

  /** N commands sent in one go are read as the same N commands. */
  lemma {:induction false} PipelineRoundTrip(cmds: seq<seq<Bytes>>, rest: Bytes)
    requires forall i :: 0 <= i < |cmds| ==> Representable(Plain(cmds[i]))
    ensures ParseCommands(Pipelined(cmds) + rest, |cmds|) == Got(AsRequests(cmds), rest)
  {
    if cmds != [] {
      var more := Pipelined(cmds[1..]) + rest;
      assert Pipelined(cmds) + rest == CommandBytes(Plain(cmds[0])) + more;
      CommandRoundTrip(Plain(cmds[0]), more);
      DecodedPlain(cmds[0]);
      PipelineRoundTrip(cmds[1..], rest);
    }
  }

  // ------------------------------------------------------------ truncated input

  /** Reading is settled once it succeeds, or fails for the form of the input:
      what arrives later changes neither. */
  ghost predicate Settled<T(!new)>(r: Read<T>, more: Read<T>, x: Bytes) {
    match r
    case Got(v, rest) => more == Got(v, rest + x)
    case Failed(e) => e == EOF || e == UnexpectedEOF || more == r
  }

  lemma LineSettled(b: Bytes, x: Bytes)
    ensures Settled(ParseLine(b), ParseLine(b + x), x)
    ensures ParseLine(b).Failed? ==> ParseLine(b).error == EOF
  {
    match LineLength(b)
    case None =>
    case Some(n) =>
      assert (b + x)[..n - 1] == b[..n - 1];
      LineLengthIs(b + x, n);
      assert (b + x)[..n] == b[..n] && (b + x)[n..] == b[n..] + x;
  }

  lemma ItemSettled(b: Bytes, x: Bytes)
    ensures Settled(ParseItem(b), ParseItem(b + x), x)
  {
    LineSettled(b, x);
    match ParseLine(b)
    case Failed(_) =>
    case Got(line, rest) =>
      match Header(line, DOLLAR)
      case None =>
      case Some(n) =>
        if n >= 0 && |rest| >= n + 2 {
          assert (rest + x)[..n] == rest[..n] && (rest + x)[n + 2..] == rest[n + 2..] + x;
        }
  }

  lemma {:induction false} ItemsSettled(b: Bytes, n: nat, x: Bytes)
    ensures Settled(ParseItems(b, n), ParseItems(b + x, n), x)
    decreases n
  {
    if n > 0 {
      ItemSettled(b, x);
      if ParseItem(b).Got? { ItemsSettled(ParseItem(b).rest, n - 1, x); }
    }
  }

  lemma CommandSettled(b: Bytes, x: Bytes)
    ensures Settled(ParseCommand(b), ParseCommand(b + x), x)
  {
    if b != [] {
      assert (b + x)[0] == b[0];
      LineSettled(b, x);
      if b[0] == STAR && ParseLine(b).Got? {
        var n := Header(ParseLine(b).value, STAR);
        if n.Some? && n.value > 0 { ItemsSettled(ParseLine(b).rest, n.value, x); }
      }
    }
  }

  /** A command cut short anywhere is an end-of-input error and no other, never a shorter command. */
  lemma PrefixIsIncomplete(args: seq<Option<Bytes>>, p: Bytes)
    requires Representable(args) && p < CommandBytes(args)
    ensures ParseCommand(p) in {Failed(EOF), Failed(UnexpectedEOF)}
  {
    var all := CommandBytes(args);
    var x := all[|p|..];
    assert p + x == all && x != [] && all + [] == all;
    CommandSettled(p, x);
    CommandRoundTrip(args, []);
  }

  // ------------------------------------------------------------- bytes on the wire

  /** The forms of a reply, byte by byte: each kind has its own first byte, and a line ends in 13, 10. */
  lemma LineForms(text: Bytes, n: int)
    ensures Encoded(Simple(text)) == ['+' as int as Byte] + text + [13, 10]
    ensures Encoded(Error(text)) == ['-' as int as Byte] + text + [13, 10]
    ensures Encoded(Int(n)) == [':' as int as Byte] + Itoa(n) + [13, 10]
  {}

  lemma CountedForms(text: Bytes, items: seq<Reply>)
    ensures Encoded(Bulk(Some(text))) == ['$' as int as Byte] + Itoa(|text|) + [13, 10] + text + [13, 10]
    ensures Encoded(Array(items)) == ['*' as int as Byte] + Itoa(|items|) + [13, 10] + EncodedAll(items)
  {}

  lemma MinusOne()
    ensures Itoa(-1) == ['-' as int as Byte, '1' as int as Byte]
  {
    assert Decimal(1) == ['1' as int as Byte];
  }

  /** The null forms announce -1. */
  lemma NullForms()
    ensures Encoded(Bulk(None)) == ['$' as int as Byte, '-' as int as Byte, '1' as int as Byte, 13, 10]
    ensures Encoded(NullArray) == ['*' as int as Byte, '-' as int as Byte, '1' as int as Byte, 13, 10]
  {
    MinusOne();
  }

  /** Replies of different kinds differ in their first byte. */
  lemma KindIsReadable(a: Reply, b: Reply)
    requires Encoded(a) == Encoded(b)
    ensures (a.Simple? <==> b.Simple?) && (a.Error? <==> b.Error?) && (a.Int? <==> b.Int?) && (a.Bulk? <==> b.Bulk?)
    ensures (a.Array? || a.NullArray?) <==> (b.Array? || b.NullArray?)
  {
    assert Encoded(a)[0] == Encoded(b)[0];
  }

  /** A line ends with the first line feed, and whatever carriage returns and line feeds stand at its
      end are no part of it. */
  lemma LineMeans(s: Bytes, rest: Bytes)
    requires 10 !in s && s != [] && s[|s| - 1] != 13
    ensures ParseLine(s + [13, 10] + rest) == Got(s, rest) && ParseLine(s + [10] + rest) == Got(s, rest)
  {
    LineReadBack(s, rest);
    var b := s + [10] + rest;
    assert b[..|s|] == s;
    LineLengthIs(b, |s| + 1);
    assert b[..|s| + 1] == s + [10] && b[|s| + 1..] == rest;
    assert (s + [10])[..|s|] == s;
    assert TrimRight(s + [10]) == TrimRight(s) == s;
    assert ParseLine(b) == Got(TrimRight(b[..|s| + 1]), b[|s| + 1..]);
  }
}

/** The language of the chunked decoder: an encoder for chunked messages, and the theorem that the decoder completes on
    exactly the encoded messages, with their payload as output and what follows them as the tail.

    The grammar is the one the decoder implements, which is wider than the grammar of section 4.1 of RFC 7230: line ends
    after chunk data and before trailers are any number of CRs and an LF, an extension is anything without an LF. The
    messages of the RFC are singled out by `StrictMessage`. */
module ChunkedGrammar {
  import opened Bytes
  import opened ChunkedMachine

  /** `digits ext LF data CR* LF` */
  datatype Chunk = Chunk(digits: Bytestring, ext: Bytestring, data: Bytestring, crs: nat)

  /** `CR* text LF` */
  datatype Line = Line(crs: nat, text: Bytestring)

  /** Chunks, then the last chunk (`digits ext LF`), then the trailer lines and the empty line (`CR* LF`). */
  datatype Message = Message(chunks: seq<Chunk>, digits: Bytestring, ext: Bytestring, trailers: seq<Line>, crs: nat)

  predicate IsHex(b: byte) { DecodeHex(b) != -1 }

  /** The kinds of bytes that parts of a message are made of. */
  datatype ByteClass = Hex | NotLf | OnlyCr

  predicate Belongs(b: byte, c: ByteClass) {
    match c
    case Hex => IsHex(b)
    case NotLf => b != LF
    case OnlyCr => b == CR
  }

  ghost predicate All(s: Bytestring, c: ByteClass) {
    forall k :: 0 <= k < |s| ==> Belongs(s[k], c)
  }

  /** The number that hexadecimal digits stand for, continuing from `acc`. */
  function HexFrom(acc: nat, digits: Bytestring): nat
    decreases |digits|
  {
    if digits == [] then acc
    else
      var v := DecodeHex(digits[0]);
      HexFrom(acc * 16 + (if v == -1 then 0 else v), digits[1..])
  }

  ghost predicate ValidSize(digits: Bytestring, ext: Bytestring, value: nat) {
    && 1 <= |digits| <= MAX_HEX && All(digits, Hex) && HexFrom(0, digits) == value
    && All(ext, NotLf) && (ext != [] ==> !IsHex(ext[0]))
  }

  ghost predicate ValidChunk(c: Chunk) {
    c.data != [] && ValidSize(c.digits, c.ext, |c.data|)
  }

  ghost predicate ValidLine(l: Line) {
    l.text != [] && l.text[0] != CR && All(l.text, NotLf)
  }

  ghost predicate ValidMessage(m: Message) {
    && (forall c <- m.chunks :: ValidChunk(c))
    && ValidSize(m.digits, m.ext, 0)
    && (forall l <- m.trailers :: ValidLine(l))
  }

  function Crs(n: nat): (s: Bytestring)
    ensures |s| == n
  {
    if n == 0 then [] else [CR] + Crs(n - 1)
  }

  function EncodeChunk(c: Chunk): Bytestring {
    c.digits + (c.ext + ([LF] + (c.data + (Crs(c.crs) + [LF]))))
  }

  function EncodeChunks(cs: seq<Chunk>): Bytestring {
    if cs == [] then [] else EncodeChunk(cs[0]) + EncodeChunks(cs[1..])
  }

  function EncodeLine(l: Line): Bytestring {
    Crs(l.crs) + (l.text + [LF])
  }

  function EncodeLines(ls: seq<Line>): Bytestring {
    if ls == [] then [] else EncodeLine(ls[0]) + EncodeLines(ls[1..])
  }

  function EncodeTrailers(m: Message): Bytestring {
    EncodeLines(m.trailers) + (Crs(m.crs) + [LF])
  }

  /** What a decoder that consumes trailers, or one that does not, takes as the whole message. */
  function Encode(m: Message, consumeTrailer: bool): Bytestring {
    EncodeChunks(m.chunks) + (m.digits + (m.ext + ([LF] + if consumeTrailer then EncodeTrailers(m) else [])))
  }

  function Payload(cs: seq<Chunk>): Bytestring {
    if cs == [] then [] else cs[0].data + Payload(cs[1..])
  }

  /** The decoder after a complete message. */
  function Done(consumeTrailer: bool): Decoder {
    Fresh(consumeTrailer).(phase := if consumeTrailer then TrailersLineHead else ChunkExt)
  }

  // ---- How the machine runs over each part of a message ----

  lemma {:induction false} HexBound(acc: nat, n: nat, digits: Bytestring)
    requires acc < Pow16(n) && n + |digits| <= MAX_HEX
    ensures HexFrom(acc, digits) < Pow16(n + |digits|) <= 0x1_0000_0000_0000_0000
    decreases |digits|
  {
    if digits == [] {
      Pow16Monotone(n, 16);
      Pow16Top();
    } else {
      var v := DecodeHex(digits[0]);
      HexBound(acc * 16 + (if v == -1 then 0 else v), n + 1, digits[1..]);
    }
  }

  lemma HexStep(acc: nat, digits: Bytestring)
    requires digits != [] && IsHex(digits[0])
    ensures HexFrom(acc, digits) == HexFrom(acc * 16 + DecodeHex(digits[0]), digits[1..])
  {
  }

  /** A decoder that has read some digits. */
  function Sized(ct: bool, value: size, count: int8): Decoder {
    Decoder(value, ct, count, ChunkSize)
  }

  lemma {:induction false} RunDigit(ct: bool, value: size, count: nat, s: Bytestring) returns (next: size)
    requires value < Pow16(count) && count < MAX_HEX && s != [] && IsHex(s[0])
    ensures next == value * 16 + DecodeHex(s[0]) && next < Pow16(count + 1)
    ensures Run(Sized(ct, value, count), s) == Run(Sized(ct, next, count + 1), s[1..])
  {
    var d, v := Sized(ct, value, count), DecodeHex(s[0]);
    AddDigitExact(d, v);
    next := value * 16 + v;
    assert Step(d, s[0]) == Go(Sized(ct, next, count + 1), []);
    PrependNothing(Run(Sized(ct, next, count + 1), s[1..]));
  }

  lemma PrependNothing(r: Outcome)
    ensures Prepend([], r) == r
  {
  }

  /** One more digit. */
  lemma {:induction false} FirstDigit(ct: bool, value: size, count: nat, digits: Bytestring, rest: Bytestring)
    returns (next: size)
    requires value < Pow16(count) && count < MAX_HEX && digits != [] && IsHex(digits[0])
    ensures next < Pow16(count + 1) && HexFrom(value, digits) == HexFrom(next, digits[1..])
    ensures Run(Sized(ct, value, count), digits + rest) == Run(Sized(ct, next, count + 1), digits[1..] + rest)
  {
    FrontOf(digits, rest);
    next := RunDigit(ct, value, count, digits + rest);
    HexStep(value, digits);
  }

  lemma NothingInFront(a: Bytestring, b: Bytestring)
    requires a == []
    ensures a + b == b
  {
  }

  lemma AllTail(s: Bytestring, c: ByteClass)
    requires s != [] && All(s, c)
    ensures Belongs(s[0], c) && All(s[1..], c)
  {
  }

  lemma FrontOf(a: Bytestring, b: Bytestring)
    requires a != []
    ensures a + b != [] && (a + b)[0] == a[0] && (a + b)[1..] == a[1..] + b
  {
  }

  lemma {:induction false} RunDigits(ct: bool, value: size, count: nat, digits: Bytestring, rest: Bytestring)
    requires value < Pow16(count) && count + |digits| <= MAX_HEX && All(digits, Hex)
    ensures HexFrom(value, digits) < 0x1_0000_0000_0000_0000
    ensures Run(Sized(ct, value, count), digits + rest) ==
      Run(Sized(ct, HexFrom(value, digits), count + |digits|), rest)
  {
    HexBound(value, count, digits);
    RunDigitsTo(ct, value, count, digits, rest, HexFrom(value, digits), count + |digits|);
  }

  /** The same with the number and the count that the digits come to. */
  lemma {:induction false} RunDigitsTo(ct: bool, value: size, count: nat, digits: Bytestring, rest: Bytestring,
                          total: size, end: nat)
    requires value < Pow16(count) && count + |digits| == end <= MAX_HEX
    requires All(digits, Hex) && HexFrom(value, digits) == total
    ensures Run(Sized(ct, value, count), digits + rest) == Run(Sized(ct, total, end), rest)
    decreases |digits|
  {
    if digits == [] {
      NothingInFront(digits, rest);
    } else {
      AllTail(digits, Hex);
      var next := FirstDigit(ct, value, count, digits, rest);
      RunDigitsTo(ct, next, count + 1, digits[1..], rest, total, end);
    }
  }

  lemma Pow16Top()
    ensures Pow16(16) == 0x1_0000_0000_0000_0000
  {
    assert Pow16(4) == 0x1_0000;
    assert Pow16(8) == 0x1_0000_0000;
    assert Pow16(12) == 0x1_0000_0000_0000;
  }

  /** A size ends at the first byte that is no digit; that byte already belongs to the extension. */
  lemma SizeEnds(d: Decoder, s: Bytestring)
    requires d.phase == ChunkSize && d.hexCount > 0 && s != [] && !IsHex(s[0])
    ensures Run(d, s) == Run(d.(hexCount := 0, phase := ChunkExt), s)
  {
  }

  function AfterSizeLine(d: Decoder, rest: Bytestring): Outcome {
    if d.left != 0 then Run(d.(phase := ChunkData), rest)
    else if d.consumeTrailer then Run(d.(phase := TrailersLineHead), rest)
    else Outcome(d, [], Complete, rest)
  }

  lemma {:induction false} RunExt(d: Decoder, ext: Bytestring, rest: Bytestring)
    requires d.phase == ChunkExt && All(ext, NotLf)
    ensures Run(d, ext + ([LF] + rest)) == AfterSizeLine(d, rest)
    ensures Run(d, ext).verdict == Incomplete
    decreases |ext|
  {
    var s := ext + ([LF] + rest);
    if ext == [] {
      assert s[0] == LF && s[1..] == rest;
      assert Step(d, LF) == ExtStep(d, LF);
    } else {
      assert s[0] == ext[0] && s[1..] == ext[1..] + ([LF] + rest);
      assert Step(d, ext[0]) == Go(d, []);
      RunExt(d, ext[1..], rest);
    }
  }

  lemma {:induction false} RunCrs(d: Decoder, n: nat, s: Bytestring)
    requires d.phase in {ChunkCrlf, TrailersLineHead}
    ensures Run(d, Crs(n) + s) == Run(d, s)
    decreases n
  {
    if n == 0 {
      assert Crs(0) + s == s;
    } else {
      assert (Crs(n) + s)[0] == CR && (Crs(n) + s)[1..] == Crs(n - 1) + s;
      assert Step(d, CR) == Go(d, []);
      RunCrs(d, n - 1, s);
    }
  }

  lemma RunLf(d: Decoder, rest: Bytestring)
    requires d.phase in {ChunkCrlf, TrailersLineHead, TrailersLineMiddle}
    ensures Run(d, [LF] + rest) ==
      match d.phase
      case ChunkCrlf => Run(d.(phase := ChunkSize), rest)
      case TrailersLineMiddle => Run(d.(phase := TrailersLineHead), rest)
      case _ => Outcome(d, [], Complete, rest)
  {
    assert ([LF] + rest)[1..] == rest;
  }

  lemma {:induction false} RunMiddle(d: Decoder, text: Bytestring, rest: Bytestring)
    requires d.phase == TrailersLineMiddle && All(text, NotLf)
    ensures Run(d, text + rest) == Run(d, rest)
    decreases |text|
  {
    if text == [] {
      assert text + rest == rest;
    } else {
      assert (text + rest)[0] == text[0] && (text + rest)[1..] == text[1..] + rest;
      assert Step(d, text[0]) == Go(d, []);
      RunMiddle(d, text[1..], rest);
    }
  }

  /** A size line, from a decoder at the start of a chunk. */
  lemma {:induction false} RunSizeLine(ct: bool, digits: Bytestring, ext: Bytestring, value: nat, rest: Bytestring)
    requires ValidSize(digits, ext, value)
    ensures value < 0x1_0000_0000_0000_0000
    ensures Run(Fresh(ct), digits + (ext + ([LF] + rest))) == AfterSizeLine(Decoder(value, ct, 0, ChunkExt), rest)
  {
    var more := ext + ([LF] + rest);
    assert Pow16(0) == 1;
    RunDigits(ct, 0, 0, digits, more);
    assert more[0] == if ext == [] then LF else ext[0];
    SizeEnds(Decoder(value, ct, |digits|, ChunkSize), more);
    RunExt(Decoder(value, ct, 0, ChunkExt), ext, rest);
  }

  /** The data of a chunk and the line end after it. */
  lemma {:induction false} RunChunkBody(ct: bool, data: Bytestring, crs: nat, rest: Bytestring)
    requires 0 < |data| < 0x1_0000_0000_0000_0000
    ensures Run(Decoder(|data|, ct, 0, ChunkData), data + (Crs(crs) + ([LF] + rest))) ==
      Prepend(data, Run(Fresh(ct), rest))
  {
    var d := Decoder(|data|, ct, 0, ChunkData);
    var more := Crs(crs) + ([LF] + rest);
    RunData(d, data + more, |data|);
    assert (data + more)[..|data|] == data && (data + more)[|data|..] == more;
    var e := Decoder(0, ct, 0, ChunkCrlf);
    RunCrs(e, crs, [LF] + rest);
    RunLf(e, rest);
  }

  lemma ChunkShape(c: Chunk, rest: Bytestring)
    ensures EncodeChunk(c) + rest == c.digits + (c.ext + ([LF] + (c.data + (Crs(c.crs) + ([LF] + rest)))))
  {
    var e := Crs(c.crs);
    assert (e + [LF]) + rest == e + ([LF] + rest);
    assert (c.data + (e + [LF])) + rest == c.data + (e + ([LF] + rest));
    assert ([LF] + (c.data + (e + [LF]))) + rest == [LF] + (c.data + (e + ([LF] + rest)));
  }

  lemma {:induction false} RunChunk(ct: bool, c: Chunk, rest: Bytestring)
    requires ValidChunk(c)
    ensures Run(Fresh(ct), EncodeChunk(c) + rest) == Prepend(c.data, Run(Fresh(ct), rest))
  {
    var body := c.data + (Crs(c.crs) + ([LF] + rest));
    ChunkShape(c, rest);
    RunSizeLine(ct, c.digits, c.ext, |c.data|, body);
    RunChunkBody(ct, c.data, c.crs, rest);
  }

  lemma {:induction false} RunLine(l: Line, rest: Bytestring)
    requires ValidLine(l)
    ensures Run(Done(true), EncodeLine(l) + rest) == Run(Done(true), rest)
  {
    var d := Done(true);
    var more := l.text + ([LF] + rest);
    assert EncodeLine(l) + rest == Crs(l.crs) + more;
    RunCrs(d, l.crs, more);
    var e := d.(phase := TrailersLineMiddle);
    assert more[1..] == l.text[1..] + ([LF] + rest);
    assert Step(d, more[0]) == Go(e, []);
    RunMiddle(e, l.text[1..], [LF] + rest);
    RunLf(e, rest);
  }

  lemma {:induction false} RunTrailers(ls: seq<Line>, crs: nat, tail: Bytestring)
    requires forall l <- ls :: ValidLine(l)
    ensures Run(Done(true), EncodeLines(ls) + (Crs(crs) + ([LF] + tail))) == Outcome(Done(true), [], Complete, tail)
    decreases |ls|
  {
    var end := Crs(crs) + ([LF] + tail);
    if ls == [] {
      assert EncodeLines(ls) + end == end;
      RunCrs(Done(true), crs, [LF] + tail);
      RunLf(Done(true), tail);
    } else {
      assert EncodeLines(ls) + end == EncodeLine(ls[0]) + (EncodeLines(ls[1..]) + end);
      RunLine(ls[0], EncodeLines(ls[1..]) + end);
      RunTrailers(ls[1..], crs, tail);
    }
  }

  lemma {:induction false} RunLastChunk(ct: bool, m: Message, tail: Bytestring)
    requires ValidMessage(m)
    ensures Run(Fresh(ct), m.digits + (m.ext + ([LF] + if ct then EncodeTrailers(m) else [])) + tail) ==
      Outcome(Done(ct), [], Complete, tail)
  {
    if ct {
      var more := EncodeLines(m.trailers) + (Crs(m.crs) + ([LF] + tail));
      assert m.digits + (m.ext + ([LF] + EncodeTrailers(m))) + tail == m.digits + (m.ext + ([LF] + more));
      RunSizeLine(ct, m.digits, m.ext, 0, more);
      RunTrailers(m.trailers, m.crs, tail);
    } else {
      assert m.digits + (m.ext + ([LF] + [])) + tail == m.digits + (m.ext + ([LF] + tail));
      RunSizeLine(ct, m.digits, m.ext, 0, tail);
    }
  }

  lemma {:induction false} RunChunks(ct: bool, cs: seq<Chunk>, rest: Bytestring)
    requires forall c <- cs :: ValidChunk(c)
    ensures Run(Fresh(ct), EncodeChunks(cs) + rest) == Prepend(Payload(cs), Run(Fresh(ct), rest))
    decreases |cs|
  {
    if cs == [] {
      assert EncodeChunks(cs) + rest == rest;
      assert [] + Run(Fresh(ct), rest).out == Run(Fresh(ct), rest).out;
    } else {
      assert EncodeChunks(cs) + rest == EncodeChunk(cs[0]) + (EncodeChunks(cs[1..]) + rest);
      RunChunk(ct, cs[0], EncodeChunks(cs[1..]) + rest);
      RunChunks(ct, cs[1..], rest);
      PrependTwice(cs[0].data, Payload(cs[1..]), Run(Fresh(ct), rest));
    }
  }

  /** Round trip: any valid message followed by anything decodes to its payload, and everything behind it is the
      tail. */
  lemma {:induction false} DecodeEncoded(ct: bool, m: Message, tail: Bytestring)
    requires ValidMessage(m)
    ensures Run(Fresh(ct), Encode(m, ct) + tail) == Outcome(Done(ct), Payload(m.chunks), Complete, tail)
  {
    var last := m.digits + (m.ext + ([LF] + if ct then EncodeTrailers(m) else []));
    assert Encode(m, ct) + tail == EncodeChunks(m.chunks) + (last + tail);
    RunChunks(ct, m.chunks, last + tail);
    RunLastChunk(ct, m, tail);
    assert Payload(m.chunks) + [] == Payload(m.chunks);
  }

  // ---- The converse: whatever the machine completes on is an encoded message ----

  /** The length of the longest prefix whose bytes are all of a class. */
  function Span(s: Bytestring, c: ByteClass): nat
    decreases |s|
  {
    if s == [] || !Belongs(s[0], c) then 0 else 1 + Span(s[1..], c)
  }

  lemma {:induction false} SpanSplits(s: Bytestring, c: ByteClass)
    ensures var n := Span(s, c); n <= |s| && All(s[..n], c) && (n < |s| ==> !Belongs(s[n], c))
    decreases |s|
  {
    if s != [] && Belongs(s[0], c) {
      SpanSplits(s[1..], c);
      var n := Span(s[1..], c);
      assert s[..n + 1] == [s[0]] + s[1..][..n];
    }
  }

  lemma {:induction false} CrsOnly(s: Bytestring)
    requires All(s, OnlyCr)
    ensures s == Crs(|s|)
    decreases |s|
  {
    if s != [] {
      CrsOnly(s[1..]);
      assert s == [s[0]] + s[1..];
    }
  }

  lemma {:induction false} TooManyDigits(ct: bool, s: Bytestring)
    requires |s| > MAX_HEX && All(s[..MAX_HEX + 1], Hex)
    ensures Run(Fresh(ct), s).verdict == Malformed
  {
    var digits, rest := s[..MAX_HEX], s[MAX_HEX..];
    assert s == digits + rest;
    assert Pow16(0) == 1;
    forall k | 0 <= k < MAX_HEX ensures IsHex(digits[k]) { assert digits[k] == s[..MAX_HEX + 1][k]; }
    RunDigits(ct, 0, 0, digits, rest);
    assert rest[0] == s[..MAX_HEX + 1][MAX_HEX];
  }

  lemma {:induction false} ParseDigits(ct: bool, s: Bytestring) returns (digits: Bytestring, more: Bytestring)
    requires Run(Fresh(ct), s).verdict == Complete
    ensures 1 <= |digits| <= MAX_HEX && All(digits, Hex) && HexFrom(0, digits) < 0x1_0000_0000_0000_0000
    ensures s == digits + more && more != [] && !IsHex(more[0])
    ensures Run(Fresh(ct), s) == Run(Sized(ct, HexFrom(0, digits), |digits|), more)
  {
    var k := Span(s, Hex);
    SpanSplits(s, Hex);
    if k > MAX_HEX {
      assert s[..MAX_HEX + 1] == s[..k][..MAX_HEX + 1];
      TooManyDigits(ct, s);
      assert false;
    }
    digits, more := s[..k], s[k..];
    assert s == digits + more;
    assert Pow16(0) == 1;
    RunDigits(ct, 0, 0, digits, more);
  }

  lemma {:induction false} ParseExt(d: Decoder, s: Bytestring) returns (ext: Bytestring, rest: Bytestring)
    requires d.phase == ChunkExt && Run(d, s).verdict == Complete
    ensures All(ext, NotLf) && s == ext + ([LF] + rest) && Run(d, s) == AfterSizeLine(d, rest)
  {
    var j := Span(s, NotLf);
    SpanSplits(s, NotLf);
    if j == |s| {
      assert s[..j] == s;
      RunExt(d, s, []);
      assert false;
    } else {
      ext, rest := s[..j], s[j + 1..];
      assert s == ext + ([LF] + rest);
      RunExt(d, ext, rest);
    }
  }

  /** A decoder at the start of a chunk that gets past its first size line has read a valid one. */
  lemma {:induction false} ParseSizeLine(ct: bool, s: Bytestring)
    returns (digits: Bytestring, ext: Bytestring, value: size, rest: Bytestring)
    requires Run(Fresh(ct), s).verdict == Complete
    ensures ValidSize(digits, ext, value) && s == digits + (ext + ([LF] + rest))
    ensures Run(Fresh(ct), s) == AfterSizeLine(Decoder(value, ct, 0, ChunkExt), rest)
  {
    var more;
    digits, more := ParseDigits(ct, s);
    value := HexFrom(0, digits);
    SizeEnds(Sized(ct, value, |digits|), more);
    ext, rest := ParseExt(Decoder(value, ct, 0, ChunkExt), more);
    assert ext != [] ==> ext[0] == more[0];
  }

  /** CRs, then the byte that decides. */
  lemma {:induction false} ParseCrs(d: Decoder, s: Bytestring) returns (crs: nat, rest: Bytestring)
    requires d.phase in {ChunkCrlf, TrailersLineHead} && Run(d, s).verdict == Complete
    ensures s == Crs(crs) + rest && rest != [] && rest[0] != CR && Run(d, s) == Run(d, rest)
  {
    crs := Span(s, OnlyCr);
    SpanSplits(s, OnlyCr);
    rest := s[crs..];
    assert s == s[..crs] + rest;
    CrsOnly(s[..crs]);
    RunCrs(d, crs, rest);
    if rest == [] {
      assert false;
    }
  }

  lemma {:induction false} ParseChunkBody(ct: bool, value: size, s: Bytestring)
    returns (data: Bytestring, crs: nat, rest: Bytestring)
    requires value > 0 && Run(Decoder(value, ct, 0, ChunkData), s).verdict == Complete
    ensures |data| == value && s == data + (Crs(crs) + ([LF] + rest))
    ensures Run(Decoder(value, ct, 0, ChunkData), s) == Prepend(data, Run(Fresh(ct), rest))
  {
    var d := Decoder(value, ct, 0, ChunkData);
    DataPhase(d, s, if |s| < value then |s| else value);
    if |s| < value {
      assert false;
    }
    data := s[..value];
    var e := Decoder(0, ct, 0, ChunkCrlf);
    var more;
    crs, more := ParseCrs(e, s[value..]);
    assert more[0] == LF;
    rest := more[1..];
    assert more == [LF] + rest;
    RunLf(e, rest);
    assert s == data + s[value..];
  }

  lemma {:induction false} ParseMiddle(s: Bytestring) returns (head: Bytestring, rest: Bytestring)
    requires Run(Done(true).(phase := TrailersLineMiddle), s).verdict == Complete
    ensures All(head, NotLf) && s == head + ([LF] + rest)
    ensures Run(Done(true).(phase := TrailersLineMiddle), s) == Run(Done(true), rest)
  {
    var e := Done(true).(phase := TrailersLineMiddle);
    var j := Span(s, NotLf);
    SpanSplits(s, NotLf);
    var end := s[j..];
    head := s[..j];
    assert s == head + end;
    RunMiddle(e, head, end);
    if end == [] {
      assert false;
    } else {
      rest := end[1..];
      assert end == [LF] + rest;
      RunLf(e, rest);
    }
  }

  lemma MiddleStarts(s: Bytestring)
    requires s != [] && s[0] != CR && s[0] != LF
    ensures Run(Done(true), s) == Run(Done(true).(phase := TrailersLineMiddle), s[1..])
  {
    var e := Done(true).(phase := TrailersLineMiddle);
    assert Step(Done(true), s[0]) == Go(e, []);
    assert [] + Run(e, s[1..]).out == Run(e, s[1..]).out;
  }

  lemma {:induction false} ParseLine(s: Bytestring) returns (text: Bytestring, rest: Bytestring)
    requires s != [] && s[0] != CR && s[0] != LF && Run(Done(true), s).verdict == Complete
    ensures text != [] && text[0] != CR && All(text, NotLf) && s == text + ([LF] + rest)
    ensures Run(Done(true), s) == Run(Done(true), rest)
  {
    MiddleStarts(s);
    var head;
    head, rest := ParseMiddle(s[1..]);
    text := [s[0]] + head;
    LineText(s, head, rest);
  }

  lemma LineText(s: Bytestring, head: Bytestring, rest: Bytestring)
    requires s != [] && s[0] != CR && s[0] != LF && s[1..] == head + ([LF] + rest) && All(head, NotLf)
    ensures s == ([s[0]] + head) + ([LF] + rest) && All([s[0]] + head, NotLf)
  {
    assert s == [s[0]] + s[1..];
    Reassociate([s[0]], head, [LF] + rest);
  }

  lemma {:induction false} ParseTrailers(s: Bytestring) returns (ls: seq<Line>, crs: nat, tail: Bytestring)
    requires Run(Done(true), s).verdict == Complete
    ensures (forall l <- ls :: ValidLine(l)) && s == EncodeLines(ls) + (Crs(crs) + ([LF] + tail))
    decreases |s|
  {
    var more;
    crs, more := ParseCrs(Done(true), s);
    if more[0] == LF {
      ls, tail := [], more[1..];
      assert more == [LF] + tail;
      NothingInFront(EncodeLines(ls), s);
    } else {
      var text, rest := ParseLine(more);
      var l := Line(crs, text);
      var others;
      others, crs, tail := ParseTrailers(rest);
      ls := [l] + others;
      LineInFront(l, s, more, rest, others, Crs(crs) + ([LF] + tail));
    }
  }

  /** A trailer line in front of the others. */
  lemma LineInFront(l: Line, s: Bytestring, more: Bytestring, rest: Bytestring, ls: seq<Line>, end: Bytestring)
    requires s == Crs(l.crs) + more && more == l.text + ([LF] + rest) && rest == EncodeLines(ls) + end
    ensures s == EncodeLines([l] + ls) + end
  {
    ConsLine(l, ls);
    Reassociate(l.text, [LF], rest);
    Reassociate(Crs(l.crs), l.text + [LF], rest);
    Reassociate(EncodeLine(l), EncodeLines(ls), end);
  }

  lemma ConsLine(l: Line, ls: seq<Line>)
    ensures EncodeLines([l] + ls) == EncodeLine(l) + EncodeLines(ls)
  {
    assert ([l] + ls)[1..] == ls;
  }

  lemma {:induction false} ParseLastChunk(ct: bool, digits: Bytestring, ext: Bytestring, more: Bytestring)
    returns (m: Message)
    requires ValidSize(digits, ext, 0) && AfterSizeLine(Decoder(0, ct, 0, ChunkExt), more).verdict == Complete
    ensures ValidMessage(m) && m.chunks == []
    ensures digits + (ext + ([LF] + more)) == Encode(m, ct) + AfterSizeLine(Decoder(0, ct, 0, ChunkExt), more).tail
    ensures AfterSizeLine(Decoder(0, ct, 0, ChunkExt), more).out == []
  {
    if ct {
      var ls, crs, tail := ParseTrailers(more);
      m := Message([], digits, ext, ls, crs);
      RunTrailers(ls, crs, tail);
      assert more == EncodeTrailers(m) + tail;
      LastShape(ct, m, tail, more);
    } else {
      m := Message([], digits, ext, [], 0);
      LastShape(ct, m, more, more);
    }
  }

  lemma LastShape(ct: bool, m: Message, tail: Bytestring, more: Bytestring)
    requires m.chunks == [] && more == (if ct then EncodeTrailers(m) else []) + tail
    ensures m.digits + (m.ext + ([LF] + more)) == Encode(m, ct) + tail
  {
    var trailers := if ct then EncodeTrailers(m) else [];
    assert EncodeChunks([]) + (m.digits + (m.ext + ([LF] + trailers))) == m.digits + (m.ext + ([LF] + trailers));
    Reassociate([LF], trailers, tail);
    Reassociate(m.ext, [LF] + trailers, tail);
    Reassociate(m.digits, m.ext + ([LF] + trailers), tail);
  }

  lemma {:induction false} ParseMessage(ct: bool, s: Bytestring) returns (m: Message)
    requires Run(Fresh(ct), s).verdict == Complete
    ensures ValidMessage(m) && s == Encode(m, ct) + Run(Fresh(ct), s).tail
    ensures Payload(m.chunks) == Run(Fresh(ct), s).out
    decreases |s|
  {
    var digits, ext, value, more := ParseSizeLine(ct, s);
    if value == 0 {
      m := ParseLastChunk(ct, digits, ext, more);
    } else {
      var data, crs, rest := ParseChunkBody(ct, value, more);
      var c := Chunk(digits, ext, data, crs);
      m := ParseMessage(ct, rest);
      ChunkShape(c, rest);
      ConsEncode(ct, c, m, Run(Fresh(ct), rest).tail);
      m := m.(chunks := [c] + m.chunks);
    }
  }

  lemma ConsEncode(ct: bool, c: Chunk, m: Message, tail: Bytestring)
    ensures Encode(m.(chunks := [c] + m.chunks), ct) + tail == EncodeChunk(c) + (Encode(m, ct) + tail)
    ensures Payload([c] + m.chunks) == c.data + Payload(m.chunks)
  {
    var cs := [c] + m.chunks;
    assert cs[1..] == m.chunks;
    var last := m.digits + (m.ext + ([LF] + if ct then EncodeTrailers(m) else []));
    assert EncodeTrailers(m.(chunks := cs)) == EncodeTrailers(m);
    Reassociate(EncodeChunk(c), EncodeChunks(m.chunks), last);
    Reassociate(EncodeChunk(c), EncodeChunks(m.chunks) + last, tail);
  }

  /** The decoder completes on `s` with payload `out` and tail `tail` if and only if `s` is some valid message with that
      payload followed by that tail. */
  lemma {:induction false} CompletesExactlyOnMessages(ct: bool, s: Bytestring, out: Bytestring, tail: Bytestring)
    ensures Run(Fresh(ct), s) == Outcome(Done(ct), out, Complete, tail) <==>
      exists m :: ValidMessage(m) && s == Encode(m, ct) + tail && out == Payload(m.chunks)
  {
    if Run(Fresh(ct), s) == Outcome(Done(ct), out, Complete, tail) {
      var m := ParseMessage(ct, s);
    }
    forall m | ValidMessage(m) && s == Encode(m, ct) + tail && out == Payload(m.chunks)
      ensures Run(Fresh(ct), s) == Outcome(Done(ct), out, Complete, tail)
    {
      DecodeEncoded(ct, m, tail);
    }
  }

  // ---- Errors ----

  /** Where a message can start, it can also end: "0", an empty line, and another one for the trailers. */
  lemma {:induction false} StartCompletes(ct: bool) returns (e: Bytestring)
    ensures Run(Fresh(ct), e).verdict == Complete
  {
    var m := Message([], [48], [], [], 0);
    assert HexFrom(0, [48]) == 0 by { assert [48][1..] == []; }
    e := Encode(m, ct) + [];
    DecodeEncoded(ct, m, []);
  }

  /** Chunk data that is still owed can be sent, and its line end. */
  lemma {:induction false} DataCompletes(ct: bool, left: size) returns (e: Bytestring)
    requires left > 0
    ensures Run(Decoder(left, ct, 0, ChunkData), e).verdict == Complete
  {
    var rest := StartCompletes(ct);
    var data: Bytestring := seq(left, _ => 0);
    e := data + (Crs(0) + ([LF] + rest));
    RunChunkBody(ct, data, 0, rest);
  }

  lemma {:induction false} SizeLineCompletes(ct: bool, left: size) returns (e: Bytestring)
    ensures Run(Decoder(left, ct, 0, ChunkExt), e).verdict == Complete
  {
    var rest := [];
    if left > 0 {
      rest := DataCompletes(ct, left);
    } else if ct {
      rest := [LF];
      RunLf(Decoder(0, ct, 0, TrailersLineHead), []);
    }
    e := [] + ([LF] + rest);
    RunExt(Decoder(left, ct, 0, ChunkExt), [], rest);
  }

  lemma {:induction false} TrailersComplete(d: Decoder) returns (e: Bytestring)
    requires d.phase in {TrailersLineHead, TrailersLineMiddle}
    ensures Run(d, e).verdict == Complete
  {
    e := [LF] + [LF];
    RunLf(d, [LF]);
    RunLf(d.(phase := TrailersLineHead), []);
  }

  /** From every state that a run reaches, the message can be completed. */
  lemma {:induction false} StateCompletes(d: Decoder) returns (e: Bytestring)
    requires Reachable(d) && Settle(d) == d
    ensures Run(d, e).verdict == Complete
  {
    match d.phase
    case ChunkSize =>
      if d.hexCount == 0 {
        assert Pow16(0) == 1;
        e := StartCompletes(d.consumeTrailer);
      } else {
        var after := SizeLineCompletes(d.consumeTrailer, d.left);
        e := SizeEnded(d, after);
      }
    case ChunkExt => e := SizeLineCompletes(d.consumeTrailer, d.left);
    case ChunkData => e := DataCompletes(d.consumeTrailer, d.left);
    case ChunkCrlf =>
      var rest := StartCompletes(d.consumeTrailer);
      e := [LF] + rest;
      RunLf(d, rest);
    case _ => e := TrailersComplete(d);
  }

  /** A size that has a digit can end. */
  lemma {:induction false} SizeEnded(d: Decoder, after: Bytestring) returns (e: Bytestring)
    requires d.phase == ChunkSize && d.hexCount > 0
    requires Run(d.(hexCount := 0, phase := ChunkExt), after).verdict == Complete
    ensures Run(d, e).verdict == Complete
  {
    var f := d.(hexCount := 0, phase := ChunkExt);
    e := [32] + after;
    SizeEnds(d, e);
    assert e[1..] == after && Step(f, 32) == Go(f, []);
  }

  /** An input is malformed if and only if no way of going on makes it a message, and incomplete if and only if it is
      none yet but some way of going on does. */
  lemma {:induction false} MalformedExactly(ct: bool, s: Bytestring)
    ensures Run(Fresh(ct), s).verdict == Malformed <==> forall e :: Run(Fresh(ct), s + e).verdict != Complete
    ensures Run(Fresh(ct), s).verdict == Incomplete <==>
      Run(Fresh(ct), s).verdict != Complete && exists e :: Run(Fresh(ct), s + e).verdict == Complete
  {
    var r := Run(Fresh(ct), s);
    assert s + [] == s;
    forall e | r.verdict == Malformed ensures Run(Fresh(ct), s + e).verdict != Complete {
      RunSplit(Fresh(ct), s, e);
    }
    if r.verdict == Incomplete {
      assert Reachable(Fresh(ct)) by { assert Pow16(0) == 1; }
      RunReachable(Fresh(ct), s);
      RunConsumes(Fresh(ct), s);
      var e := StateCompletes(r.dec);
      RunSplit(Fresh(ct), s, e);
      assert Run(Fresh(ct), s + e).verdict == Complete;
    }
  }

  // ---- The messages of the RFC, with CRLF line ends ----

  /** `chunk-size [ chunk-ext ] CRLF`, the extension as it stands between the size and the CR. */
  datatype StrictChunk = StrictChunk(digits: Bytestring, ext: Bytestring, data: Bytestring)

  datatype StrictMessage =
    StrictMessage(chunks: seq<StrictChunk>, digits: Bytestring, ext: Bytestring, fields: seq<Bytestring>)

  const CRLF: Bytestring := [CR, LF]

  function StrictEncodeChunks(cs: seq<StrictChunk>): Bytestring {
    if cs == [] then []
    else cs[0].digits + cs[0].ext + CRLF + cs[0].data + CRLF + StrictEncodeChunks(cs[1..])
  }

  function StrictEncodeFields(fs: seq<Bytestring>): Bytestring {
    if fs == [] then [] else fs[0] + CRLF + StrictEncodeFields(fs[1..])
  }

  /** The chunked body up to the last size line, and the trailer part with the final CRLF. */
  function StrictEncodeBody(m: StrictMessage): Bytestring {
    StrictEncodeChunks(m.chunks) + m.digits + m.ext + CRLF
  }

  function StrictEncodeTrailers(m: StrictMessage): Bytestring {
    StrictEncodeFields(m.fields) + CRLF
  }

  function StrictPayload(cs: seq<StrictChunk>): Bytestring {
    if cs == [] then [] else cs[0].data + StrictPayload(cs[1..])
  }

  ghost predicate StrictValid(m: StrictMessage) {
    && (forall c <- m.chunks :: c.data != [] && ValidSize(c.digits, c.ext, |c.data|))
    && ValidSize(m.digits, m.ext, 0)
    && (forall f <- m.fields :: f != [] && f[0] != CR && All(f, NotLf))
  }

  function LooseChunks(cs: seq<StrictChunk>): (r: seq<Chunk>)
    ensures |r| == |cs|
    ensures forall k :: 0 <= k < |cs| ==> r[k] == Chunk(cs[k].digits, cs[k].ext + [CR], cs[k].data, 1)
  {
    seq(|cs|, k requires 0 <= k < |cs| => Chunk(cs[k].digits, cs[k].ext + [CR], cs[k].data, 1))
  }

  function LooseLines(fs: seq<Bytestring>): (r: seq<Line>)
    ensures |r| == |fs|
    ensures forall k :: 0 <= k < |fs| ==> r[k] == Line(0, fs[k] + [CR])
  {
    seq(|fs|, k requires 0 <= k < |fs| => Line(0, fs[k] + [CR]))
  }

  lemma {:induction false} LooseChunksEncode(cs: seq<StrictChunk>)
    ensures EncodeChunks(LooseChunks(cs)) == StrictEncodeChunks(cs)
    ensures Payload(LooseChunks(cs)) == StrictPayload(cs)
    decreases |cs|
  {
    if cs != [] {
      LooseChunksEncode(cs[1..]);
      var ls := LooseChunks(cs);
      assert ls[1..] == LooseChunks(cs[1..]);
      assert Crs(1) == [CR];
      var c := cs[0];
      assert EncodeChunk(ls[0]) == c.digits + c.ext + CRLF + c.data + CRLF;
      assert EncodeChunk(ls[0]) + EncodeChunks(ls[1..]) ==
        c.digits + c.ext + CRLF + c.data + CRLF + StrictEncodeChunks(cs[1..]);
    }
  }

  lemma {:induction false} LooseLinesEncode(fs: seq<Bytestring>)
    ensures EncodeLines(LooseLines(fs)) == StrictEncodeFields(fs)
    decreases |fs|
  {
    if fs != [] {
      LooseLinesEncode(fs[1..]);
      var ls := LooseLines(fs);
      assert ls[1..] == LooseLines(fs[1..]);
      assert EncodeLine(ls[0]) == fs[0] + CRLF;
    }
  }

  lemma LooseSize(digits: Bytestring, ext: Bytestring, value: nat)
    requires ValidSize(digits, ext, value)
    ensures ValidSize(digits, ext + [CR], value)
  {
  }

  function Loose(m: StrictMessage): Message {
    Message(LooseChunks(m.chunks), m.digits, m.ext + [CR], LooseLines(m.fields), 1)
  }

  lemma LooseValid(m: StrictMessage)
    requires StrictValid(m)
    ensures ValidMessage(Loose(m))
  {
    forall c <- LooseChunks(m.chunks) ensures ValidChunk(c) {
      var k :| 0 <= k < |m.chunks| && c == LooseChunks(m.chunks)[k];
      assert m.chunks[k] in m.chunks;
      LooseSize(m.chunks[k].digits, m.chunks[k].ext, |m.chunks[k].data|);
    }
    LooseSize(m.digits, m.ext, 0);
    forall l <- LooseLines(m.fields) ensures ValidLine(l) {
      var k :| 0 <= k < |m.fields| && l == LooseLines(m.fields)[k];
      assert m.fields[k] in m.fields;
    }
  }

  lemma {:induction false} LooseEncode(m: StrictMessage)
    ensures Encode(Loose(m), false) == StrictEncodeBody(m)
    ensures Encode(Loose(m), true) == StrictEncodeBody(m) + StrictEncodeTrailers(m)
    ensures Payload(Loose(m).chunks) == StrictPayload(m.chunks)
  {
    LooseChunksEncode(m.chunks);
    LooseLinesEncode(m.fields);
    assert Crs(1) == [CR];
    var chunks := StrictEncodeChunks(m.chunks);
    BodyShape(chunks, m.digits, m.ext, []);
    BodyShape(chunks, m.digits, m.ext, StrictEncodeTrailers(m));
    assert StrictEncodeBody(m) + [] == StrictEncodeBody(m);
  }

  lemma BodyShape(chunks: Bytestring, digits: Bytestring, ext: Bytestring, more: Bytestring)
    ensures chunks + (digits + ((ext + [CR]) + ([LF] + more))) == chunks + digits + ext + CRLF + more
  {
    assert (ext + [CR]) + ([LF] + more) == ext + CRLF + more;
    assert digits + (ext + CRLF + more) == digits + ext + CRLF + more;
  }

  /** Round trip for the messages of section 4.1 of RFC 7230. A decoder that consumes trailers takes the whole message;
      one that does not stops behind the last size line and leaves the trailer part to its caller. */
  lemma {:induction false} DecodeStrict(ct: bool, m: StrictMessage, tail: Bytestring)
    requires StrictValid(m)
    ensures Run(Fresh(ct), StrictEncodeBody(m) + StrictEncodeTrailers(m) + tail) ==
      Outcome(Done(ct), StrictPayload(m.chunks), Complete, if ct then tail else StrictEncodeTrailers(m) + tail)
  {
    var body, trailers := StrictEncodeBody(m), StrictEncodeTrailers(m);
    LooseValid(m);
    LooseEncode(m);
    Reassociate(body, trailers, tail);
    DecodeEncoded(ct, Loose(m), if ct then tail else trailers + tail);
  }
}

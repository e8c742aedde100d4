/** What the HTTP parser accepts, said without a parser: a grammar over positions of the buffer. A parse succeeds with a
    result if and only if the grammar has that result there. */
module HttpGrammar {
  import opened Bytes
  import opened HttpScan
  import opened HttpParse
  import opened HttpPrint

  // ---- The grammar ----

  /** The bytes of a token, of a text, of a number, of a header name behind its first byte, and between a colon and a
      value. */
  datatype Class = Visible | Printed | Figure | Named | Blanks

  predicate In(c: Class, b: byte) {
    match c
    case Visible => b > 32 && b != 127
    case Printed => b == 9 || (b >= 32 && b != 127)
    case Figure => 48 <= b <= 57
    case Named => 32 <= b < 128 && b != 58
    case Blanks => b == 32 || b == 9
  }

  predicate InAt(s: Bytestring, k: nat, c: Class) { k < |s| && In(c, s[k]) }

  /** All bytes from `i` to `n` are of the class. */
  ghost predicate AllAt(s: Bytestring, i: nat, n: nat, c: Class) {
    i <= n <= |s| && forall k :: i <= k < n ==> InAt(s, k, c)
  }

  /** The visible characters but the separators; the double quote, which is one of these, is allowed. */
  predicate NameStart(b: byte) {
    33 <= b <= 126 && !(40 <= b <= 41 || b == 44 || b == 47 || 58 <= b <= 64 || 91 <= b <= 93 || b == 123 || b == 125)
  }

  /** From `i` to `n` there is CR LF or LF. */
  predicate EolAt(s: Bytestring, i: nat, n: nat) {
    i < |s| && ((s[i] == 10 && n == i + 1) || (s[i] == 13 && i + 1 < |s| && s[i + 1] == 10 && n == i + 2))
  }

  /** From `i` on there is a token that ends before the space at `n`. */
  ghost predicate TokenAt(s: Bytestring, i: nat, n: nat) {
    AllAt(s, i, n, Visible) && n < |s| && s[n] == 32
  }

  /** From `i` on there is a text that ends at `end` with a line end up to `n`. */
  ghost predicate TextAt(s: Bytestring, i: nat, end: nat, n: nat) {
    AllAt(s, i, end, Printed) && EolAt(s, end, n)
  }

  /** The number that decimal digits continue `v` to. */
  function Numeral(v: nat, w: Bytestring): int {
    if w == [] then v else 10 * Numeral(v, w[..|w| - 1]) + w[|w| - 1] - 48
  }

  /** From `i` to `n` there are all the digits, if any, that continue `v` to `u`. */
  ghost predicate DigitsAt(s: Bytestring, i: nat, v: nat, n: nat, u: nat) {
    AllAt(s, i, n, Figure) && n < |s| && !In(Figure, s[n]) && u == Numeral(v, s[i..n])
  }

  /** From `i` to `n` there are all the digits of the number `v`. */
  ghost predicate NumberAt(s: Bytestring, i: nat, n: nat, v: nat) {
    i < n && DigitsAt(s, i, 0, n, v)
  }

  /** From `i` to `n` there is "HTTP/1." and the number `v`. */
  ghost predicate VersionAt(s: Bytestring, i: nat, n: nat, v: nat) {
    At(s, i, [72, 84, 84, 80, 47, 49, 46]) && NumberAt(s, i + 7, n, v)
  }

  /** From `i` on there is a header name, a colon at `colon`, and blanks up to `v`. */
  ghost predicate NameAt(s: Bytestring, i: nat, colon: nat, v: nat) {
    && i < |s| && NameStart(s[i]) && AllAt(s, i, colon, Named) && colon < |s| && s[colon] == 58
    && AllAt(s, colon + 1, v, Blanks) && v < |s| && !In(Blanks, s[v])
  }

  /** From `i` to `n` there is the line of the header `h`: a name and a value, or, behind another header, a value alone,
      which then starts with the blank that the line starts with. */
  ghost predicate LineAt(s: Bytestring, i: nat, first: bool, n: nat, h: Header) {
    && TextAt(s, h.value.start, h.value.start + h.value.len, n)
    && match h.name
       case None => !first && h.value.start == i && In(Blanks, s[i])
       case Some(w) => w.start == i && NameAt(s, i, i + w.len, h.value.start)
  }

  /** Where the line of `h` ends. */
  function LineStop(s: Bytestring, h: Header): nat {
    var end := h.value.start + h.value.len;
    if end < |s| && s[end] == 13 then end + 2 else end + 1
  }

  /** From `i` to `n` there are the lines of the headers `hs`, of which `num` were there before, and the empty line. */
  ghost predicate HeadersAt(s: Bytestring, i: nat, num: nat, n: nat, hs: seq<Header>)
    decreases |hs|
  {
    if hs == [] then EolAt(s, i, n)
    else LineAt(s, i, num == 0, LineStop(s, hs[0]), hs[0]) && HeadersAt(s, LineStop(s, hs[0]), num + 1, n, hs[1..])
  }

  /** From `i` to `n` there is the version `v`, a line end, and a header block. */
  ghost predicate TailAt(s: Bytestring, i: nat, n: nat, v: nat, hs: seq<Header>) {
    exists j: nat, k: nat :: VersionAt(s, i, j, v) && EolAt(s, j, k) && HeadersAt(s, k, 0, n, hs)
  }

  /** Before `i` there is nothing, or an empty line. */
  predicate EmptyLineAt(s: Bytestring, i: nat) {
    if i == 0 then s != [] && s[0] != 13 && s[0] != 10 else EolAt(s, 0, i)
  }

  /** From `i` to `j` there are the tokens `m` and `p`, each with a space behind it. */
  ghost predicate TargetAt(s: Bytestring, i: nat, j: nat, m: Slice, p: Slice) {
    && m.start == i && TokenAt(s, i, i + m.len)
    && p.start == i + m.len + 1 && TokenAt(s, p.start, p.start + p.len) && j == p.start + p.len + 1
  }

  /** The first `n` bytes are a request: an empty line or not, the method and the path, and the rest. */
  ghost predicate RequestAt(s: Bytestring, n: nat, r: Request) {
    var i, j := r.method_.start, r.path.start + r.path.len + 1;
    EmptyLineAt(s, i) && TargetAt(s, i, j, r.method_, r.path) && TailAt(s, j, n, r.minorVersion, r.headers)
  }

  /** The version up to the space at `i`, and the status up to the space at `j`. */
  ghost predicate StatusAt(s: Bytestring, i: nat, j: nat, v: nat, status: nat) {
    VersionAt(s, 0, i, v) && s[i] == 32 && NumberAt(s, i + 1, j, status) && s[j] == 32
  }

  /** Behind the space at `j` the message, with its line end up to `k`, and the headers. */
  ghost predicate MessageAt(s: Bytestring, j: nat, k: nat, n: nat, msg: Slice, hs: seq<Header>) {
    msg.start == j + 1 && TextAt(s, j + 1, j + 1 + msg.len, k) && HeadersAt(s, k, 0, n, hs)
  }

  /** The first `n` bytes are a response. */
  ghost predicate ResponseAt(s: Bytestring, n: nat, r: Response) {
    exists i: nat, j: nat, k: nat ::
      StatusAt(s, i, j, r.minorVersion, r.status) && MessageAt(s, j, k, n, r.msg, r.headers)
  }

  // ---- The pieces ----

  lemma EolExactly(s: Bytestring, start: nat, i: nat, n: nat, w: Slice)
    requires start <= i < |s|
    ensures LineEnd(s, start, i) == Ok(n, w) <==> EolAt(s, i, n) && w == Slice(start, i - start)
  {
  }

  lemma AllInside(s: Bytestring, i: nat, n: nat, c: Class)
    requires AllAt(s, i, n, c)
    ensures forall k :: i <= k < n ==> In(c, s[k])
  {
    forall k | i <= k < n ensures In(c, s[k]) { assert InAt(s, k, c); }
  }

  lemma AllFrom(s: Bytestring, i: nat, n: nat, c: Class)
    requires i < |s|
    ensures AllAt(s, i, n, c) <==> i == n || (In(c, s[i]) && AllAt(s, i + 1, n, c))
  {
    if AllAt(s, i, n, c) && i < n {
      assert InAt(s, i, c);
    }
  }

  lemma TokenExactly(s: Bytestring, i: nat, n: nat, w: Slice)
    requires i <= |s|
    ensures ScanToken(s, i, i) == Ok(n, w) <==> w == Slice(i, w.len) && n == i + w.len && TokenAt(s, i, n)
  {
    if n >= i {
      TokenFound(s, i, i, n);
      if AllAt(s, i, n, Visible) {
        AllInside(s, i, n, Visible);
      }
    }
  }

  lemma TextExactly(s: Bytestring, i: nat, n: nat, w: Slice)
    requires i <= |s|
    ensures ScanText(s, i, i) == Ok(n, w) <==> w == Slice(i, w.len) && TextAt(s, i, i + w.len, n)
  {
    TextFound(s, i, i, n, i + w.len);
    if AllAt(s, i, i + w.len, Printed) {
      AllInside(s, i, i + w.len, Printed);
    }
  }

  lemma {:induction false} BlanksExactly(s: Bytestring, i: nat, n: nat)
    requires i <= |s|
    ensures (SkipBlanks(s, i).Ok? && SkipBlanks(s, i).next == n) <==>
      AllAt(s, i, n, Blanks) && n < |s| && !In(Blanks, s[n])
    decreases |s| - i
  {
    if i < |s| {
      AllFrom(s, i, n, Blanks);
      if Blank(s[i]) {
        BlanksExactly(s, i + 1, n);
      }
    }
  }

  lemma {:induction false} NumeralFront(v: nat, w: Bytestring)
    requires w != [] && w[0] >= 48
    ensures Numeral(v, w) == Numeral(v * 10 + (w[0] - 48), w[1..])
    decreases |w|
  {
    if |w| > 1 {
      NumeralFront(v, w[..|w| - 1]);
      assert w[..|w| - 1][1..] == w[1..][..|w| - 2];
    } else {
      assert w[..0] == [] && w[1..] == [];
    }
  }

  lemma {:induction false} DigitsExactly(s: Bytestring, i: nat, v: nat, n: nat, u: nat)
    requires i <= |s|
    ensures Digits(s, i, v) == Ok(n, u) <==> DigitsAt(s, i, v, n, u)
    decreases |s| - i
  {
    if i < |s| {
      AllFrom(s, i, n, Figure);
      if Digit(s[i]) {
        DigitsExactly(s, i + 1, v * 10 + (s[i] - 48), n, u);
        if i < n < |s| {
          NumeralFront(v, s[i..n]);
          assert s[i..n][1..] == s[i + 1..n];
        }
      } else if n == i {
        assert s[i..i] == [];
      }
    }
  }

  lemma NumberExactly(s: Bytestring, i: nat, n: nat, v: nat)
    requires i <= |s|
    ensures ParseInt(s, i) == Ok(n, v) <==> NumberAt(s, i, n, v)
  {
    DigitsExactly(s, i, 0, n, v);
  }

  lemma {:induction false} PatternExactly(s: Bytestring, i: nat, pattern: Bytestring)
    requires i <= |s|
    ensures ExpectAll(s, i, pattern).Ok? <==> At(s, i, pattern)
    decreases |pattern|
  {
    if pattern != [] {
      assert pattern == [pattern[0]] + pattern[1..];
      if At(s, i, pattern) {
        AtSplit(s, i, [pattern[0]], pattern[1..]);
        AtByte(s, i, pattern, 0);
      }
      if Expect(s, i, pattern[0]).Ok? {
        PatternExactly(s, i + 1, pattern[1..]);
        if At(s, i + 1, pattern[1..]) {
          forall k | 0 <= k < |pattern| ensures s[i + k] == pattern[k] {
            if k > 0 { AtByte(s, i + 1, pattern[1..], k - 1); }
          }
        }
      }
    }
  }

  lemma {:induction false} VersionExactly(s: Bytestring, i: nat, n: nat, v: nat)
    requires i <= |s|
    ensures ParseVersion(s, i) == Ok(n, v) <==> VersionAt(s, i, n, v)
  {
    PatternExactly(s, i, HTTP_1);
    if i + 7 <= |s| {
      NumberExactly(s, i + 7, n, v);
    }
  }

  lemma NameStartExactly(b: byte)
    ensures TokenChar(b) <==> NameStart(b)
  {
  }

  lemma ColonExactly(s: Bytestring, i: nat, colon: nat)
    requires i <= |s|
    ensures (ScanName(s, i).Ok? && ScanName(s, i).next == colon) <==>
      AllAt(s, i, colon, Named) && colon < |s| && s[colon] == 58
  {
    NameFound(s, i, colon);
    if AllAt(s, i, colon, Named) {
      AllInside(s, i, colon, Named);
    }
  }

  lemma {:induction false} NameExactly(s: Bytestring, i: nat, n: nat, w: Slice)
    requires i < |s|
    ensures ParseName(s, i) == Ok(n, w) <==> w.start == i && NameAt(s, i, i + w.len, n)
  {
    NameStartExactly(s[i]);
    ColonExactly(s, i, i + w.len);
    var colon := ScanName(s, i);
    if colon.Ok? {
      ColonExactly(s, i, colon.next);
      BlanksExactly(s, colon.next + 1, n);
    }
  }

  /** One header line. */
  lemma {:induction false} LineExactly(s: Bytestring, i: nat, first: bool, n: nat, h: Header)
    requires i < |s|
    ensures ParseLine(s, i, first) == Ok(n, h) <==> LineAt(s, i, first, n, h)
  {
    if h.value.start <= |s| {
      TextExactly(s, h.value.start, n, h.value);
    }
    match h.name
    case None =>
    case Some(w) => NameExactly(s, i, h.value.start, w);
  }

  lemma LineStopsThere(s: Bytestring, i: nat, first: bool, n: nat, h: Header)
    requires LineAt(s, i, first, n, h)
    ensures n == LineStop(s, h) && i < |s| && s[i] != CR && s[i] != LF
  {
  }

  lemma LineIs(s: Bytestring, i: nat, first: bool, h: Header)
    requires i < |s|
    ensures ParseLine(s, i, first) == Ok(LineStop(s, h), h) <==> LineAt(s, i, first, LineStop(s, h), h)
    ensures ParseLine(s, i, first).Ok? && ParseLine(s, i, first).val == h ==>
      ParseLine(s, i, first).next == LineStop(s, h)
  {
    LineExactly(s, i, first, LineStop(s, h), h);
    var line := ParseLine(s, i, first);
    if line.Ok? {
      LineExactly(s, i, first, line.next, line.val);
      LineStopsThere(s, i, first, line.next, line.val);
    }
  }

  /** A header block, from any line on: it is parsed to these headers if and only if they are there and there is room
      for them. */
  lemma {:induction false} HeadersExactly(s: Bytestring, i: nat, num: nat, max: nat, n: nat, hs: seq<Header>)
    requires i <= |s| && num <= max
    ensures ParseHeaders(s, i, num, max) == Ok(n, hs) <==> HeadersAt(s, i, num, n, hs) && num + |hs| <= max
    decreases |s| - i
  {
    if i == |s| || s[i] == CR || s[i] == LF || num == max {
      if hs != [] && HeadersAt(s, i, num, n, hs) {
        LineStopsThere(s, i, num == 0, LineStop(s, hs[0]), hs[0]);
      }
    } else {
      HeadersStepExactly(s, i, num, max, n, hs);
    }
  }

  lemma {:induction false} HeadersStepExactly(s: Bytestring, i: nat, num: nat, max: nat, n: nat, hs: seq<Header>)
    requires i < |s| && num < max && s[i] != CR && s[i] != LF
    ensures ParseHeaders(s, i, num, max) == Ok(n, hs) <==> HeadersAt(s, i, num, n, hs) && num + |hs| <= max
    decreases |s| - i, 0
  {
    if hs != [] {
      LineIs(s, i, num == 0, hs[0]);
      if LineAt(s, i, num == 0, LineStop(s, hs[0]), hs[0]) {
        HeadersExactly(s, LineStop(s, hs[0]), num + 1, max, n, hs[1..]);
        HeadersUnroll(s, i, num, max, LineStop(s, hs[0]), hs[0], n, hs[1..]);
        assert [hs[0]] + hs[1..] == hs;
      } else if ParseHeaders(s, i, num, max) == Ok(n, hs) {
        HeadersOther(s, i, num, max, n, hs);
      }
    }
  }

  /** The first header is that of the first line. */
  lemma HeadersOther(s: Bytestring, i: nat, num: nat, max: nat, n: nat, hs: seq<Header>)
    requires i < |s| && s[i] != CR && s[i] != LF && hs != [] && ParseHeaders(s, i, num, max) == Ok(n, hs)
    ensures ParseLine(s, i, num == 0).Ok? && ParseLine(s, i, num == 0).val == hs[0]
  {
  }

  /** `ParseHeaders` with one line taken off. */
  lemma HeadersUnroll(s: Bytestring, i: nat, num: nat, max: nat, next: nat, h: Header, n: nat, hs: seq<Header>)
    requires i < |s| && s[i] != CR && s[i] != LF && num != max && ParseLine(s, i, num == 0) == Ok(next, h)
    ensures ParseHeaders(s, i, num, max) == Ok(n, [h] + hs) <==> ParseHeaders(s, next, num + 1, max) == Ok(n, hs)
  {
    var rest := ParseHeaders(s, next, num + 1, max);
    if rest.Ok? {
      assert [h] + rest.val == [h] + hs <==> rest.val == hs by {
        assert ([h] + rest.val)[1..] == rest.val && ([h] + hs)[1..] == hs;
      }
    }
  }

  // ---- The heads ----

  lemma {:induction false} TargetExactly(s: Bytestring, i: nat, j: nat, m: Slice, p: Slice)
    requires i <= |s|
    ensures ParseTarget(s, i) == Ok(j, (m, p)) <==> TargetAt(s, i, j, m, p)
  {
    TokenExactly(s, i, i + m.len, m);
    if i + m.len < |s| {
      TokenExactly(s, i + m.len + 1, i + m.len + 1 + p.len, p);
    }
  }

  lemma {:induction false} TailExactly(s: Bytestring, i: nat, max: nat, n: nat, v: nat, hs: seq<Header>)
    requires i <= |s|
    ensures ParseRequestTail(s, i, max) == Ok(n, (v, hs)) <==> TailAt(s, i, n, v, hs) && |hs| <= max
  {
    if ParseRequestTail(s, i, max) == Ok(n, (v, hs)) {
      var j := ParseVersion(s, i).next;
      var k := LineEnd(s, j, j).next;
      TailThere(s, i, max, j, k, n, v, hs);
    }
    if TailAt(s, i, n, v, hs) && |hs| <= max {
      var j: nat, k: nat :| VersionAt(s, i, j, v) && EolAt(s, j, k) && HeadersAt(s, k, 0, n, hs);
      TailThere(s, i, max, j, k, n, v, hs);
    }
  }

  lemma {:induction false} TailThere(s: Bytestring, i: nat, max: nat, j: nat, k: nat, n: nat, v: nat, hs: seq<Header>)
    requires i <= |s| && j < |s| && k <= |s|
    ensures ParseVersion(s, i) == Ok(j, v) <==> VersionAt(s, i, j, v)
    ensures LineEnd(s, j, j) == Ok(k, Slice(j, 0)) <==> EolAt(s, j, k)
    ensures ParseHeaders(s, k, 0, max) == Ok(n, hs) <==> HeadersAt(s, k, 0, n, hs) && |hs| <= max
  {
    VersionExactly(s, i, j, v);
    EolExactly(s, j, j, k, Slice(j, 0));
    HeadersExactly(s, k, 0, max, n, hs);
  }

  lemma SkipExactly(s: Bytestring, i: nat)
    ensures (SkipEmptyLine(s, 0).Ok? && SkipEmptyLine(s, 0).next == i) <==> EmptyLineAt(s, i)
  {
    if s != [] {
      EolExactly(s, 0, 0, i, Slice(0, 0));
    }
  }

  lemma TargetParts(s: Bytestring, i: nat)
    requires i <= |s| && ParseTarget(s, i).Ok?
    ensures var r := ParseTarget(s, i); r.val.0.start == i && r.next == r.val.1.start + r.val.1.len + 1 <= |s|
  {
  }

  /** What `ParseRequest` is put together from. */
  lemma RequestParts(s: Bytestring, max: nat, n: nat, r: Request) returns (i: nat, j: nat)
    requires ParseRequest(s, max) == Ok(n, r)
    ensures i == r.method_.start <= |s| && j == r.path.start + r.path.len + 1 <= |s|
    ensures SkipEmptyLine(s, 0).Ok? && SkipEmptyLine(s, 0).next == i && ParseTarget(s, i) == Ok(j, (r.method_, r.path))
    ensures ParseRequestTail(s, j, max) == Ok(n, (r.minorVersion, r.headers))
  {
    i := SkipEmptyLine(s, 0).next;
    j := ParseTarget(s, i).next;
    TargetParts(s, i);
  }

  lemma RequestJoined(s: Bytestring, max: nat, i: nat, j: nat, n: nat, r: Request)
    requires SkipEmptyLine(s, 0).Ok? && SkipEmptyLine(s, 0).next == i && i <= |s|
    requires ParseTarget(s, i) == Ok(j, (r.method_, r.path)) && j <= |s|
    requires ParseRequestTail(s, j, max) == Ok(n, (r.minorVersion, r.headers))
    ensures ParseRequest(s, max) == Ok(n, r)
  {
  }

  /** The first three parts of a request, by the parser and by the grammar. */
  lemma FrontExactly(s: Bytestring, i: nat, j: nat, m: Slice, p: Slice)
    requires i <= |s|
    ensures SkipEmptyLine(s, 0).Ok? && SkipEmptyLine(s, 0).next == i && ParseTarget(s, i) == Ok(j, (m, p)) <==>
      EmptyLineAt(s, i) && TargetAt(s, i, j, m, p)
  {
    SkipExactly(s, i);
    TargetExactly(s, i, j, m, p);
  }

  /** The parts of a request, by the parser and by the grammar. */
  lemma PiecesExactly(s: Bytestring, max: nat, i: nat, j: nat, n: nat, r: Request)
    requires i == r.method_.start <= |s| && j == r.path.start + r.path.len + 1 <= |s|
    ensures RequestAt(s, n, r) && |r.headers| <= max <==>
      && SkipEmptyLine(s, 0).Ok? && SkipEmptyLine(s, 0).next == i && ParseTarget(s, i) == Ok(j, (r.method_, r.path))
      && ParseRequestTail(s, j, max) == Ok(n, (r.minorVersion, r.headers))
  {
    FrontExactly(s, i, j, r.method_, r.path);
    TailExactly(s, j, max, n, r.minorVersion, r.headers);
  }

  lemma PositionsInside(s: Bytestring, n: nat, r: Request)
    requires RequestAt(s, n, r)
    ensures r.method_.start <= |s| && r.path.start + r.path.len + 1 <= |s|
  {
  }

  /** A buffer parses as the request `r` of `n` bytes if and only if the grammar has it there and there is room for its
      headers. */
  lemma {:induction false} RequestExactly(s: Bytestring, max: nat, n: nat, r: Request)
    ensures ParseRequest(s, max) == Ok(n, r) <==> RequestAt(s, n, r) && |r.headers| <= max
  {
    if ParseRequest(s, max) == Ok(n, r) {
      var i, j := RequestParts(s, max, n, r);
      PiecesExactly(s, max, i, j, n, r);
    }
    if RequestAt(s, n, r) && |r.headers| <= max {
      var i, j := r.method_.start, r.path.start + r.path.len + 1;
      PositionsInside(s, n, r);
      PiecesExactly(s, max, i, j, n, r);
      RequestJoined(s, max, i, j, n, r);
    }
  }

  lemma VersionSpaceExactly(s: Bytestring, i: nat, v: nat)
    requires i < |s|
    ensures VersionSpace(s, 0) == Ok(i + 1, v) <==> VersionAt(s, 0, i, v) && s[i] == 32
  {
    VersionExactly(s, 0, i, v);
  }

  lemma StatusSpaceExactly(s: Bytestring, i: nat, j: nat, status: nat)
    requires i <= |s| && j < |s|
    ensures StatusSpace(s, i) == Ok(j + 1, status) <==> NumberAt(s, i, j, status) && s[j] == 32
  {
    NumberExactly(s, i, j, status);
  }

  lemma {:induction false} StatusExactly(s: Bytestring, i: nat, j: nat, v: nat, status: nat)
    requires i < |s| && j < |s|
    ensures StatusAt(s, i, j, v, status) <==>
      VersionSpace(s, 0) == Ok(i + 1, v) && StatusSpace(s, i + 1) == Ok(j + 1, status)
  {
    VersionSpaceExactly(s, i, v);
    StatusSpaceExactly(s, i + 1, j, status);
  }

  lemma {:induction false} MessageExactly(s: Bytestring, j: nat, k: nat, max: nat, n: nat, msg: Slice, hs: seq<Header>)
    requires j < |s| && k <= |s|
    ensures MessageAt(s, j, k, n, msg, hs) && |hs| <= max <==>
      ScanText(s, j + 1, j + 1) == Ok(k, msg) && ParseHeaders(s, k, 0, max) == Ok(n, hs)
  {
    TextExactly(s, j + 1, k, msg);
    HeadersExactly(s, k, 0, max, n, hs);
  }

  /** What `ParseResponse` is put together from. */
  lemma ResponseParts(s: Bytestring, max: nat, n: nat, r: Response) returns (i: nat, j: nat, k: nat)
    requires ParseResponse(s, max) == Ok(n, r)
    ensures i < |s| && j < |s| && k <= |s|
    ensures VersionSpace(s, 0) == Ok(i + 1, r.minorVersion) && StatusSpace(s, i + 1) == Ok(j + 1, r.status)
    ensures ScanText(s, j + 1, j + 1) == Ok(k, r.msg) && ParseHeaders(s, k, 0, max) == Ok(n, r.headers)
  {
    i := VersionSpace(s, 0).next - 1;
    j := StatusSpace(s, i + 1).next - 1;
    k := ScanText(s, j + 1, j + 1).next;
  }

  lemma ResponseJoined(s: Bytestring, max: nat, i: nat, j: nat, k: nat, n: nat, r: Response)
    requires i < |s| && j < |s| && k <= |s|
    requires VersionSpace(s, 0) == Ok(i + 1, r.minorVersion) && StatusSpace(s, i + 1) == Ok(j + 1, r.status)
    requires ScanText(s, j + 1, j + 1) == Ok(k, r.msg) && ParseHeaders(s, k, 0, max) == Ok(n, r.headers)
    ensures ParseResponse(s, max) == Ok(n, r)
  {
    assert ParseStatus(s, 0) == Ok(j + 1, (r.minorVersion, r.status));
    assert ParseResponseTail(s, j + 1, max) == Ok(n, (r.msg, r.headers));
  }

  lemma ResponseThere(s: Bytestring, max: nat, i: nat, j: nat, k: nat, n: nat, r: Response)
    requires i < |s| && j < |s| && k <= |s|
    requires VersionSpace(s, 0) == Ok(i + 1, r.minorVersion) && StatusSpace(s, i + 1) == Ok(j + 1, r.status)
    requires ScanText(s, j + 1, j + 1) == Ok(k, r.msg) && ParseHeaders(s, k, 0, max) == Ok(n, r.headers)
    ensures StatusAt(s, i, j, r.minorVersion, r.status) && MessageAt(s, j, k, n, r.msg, r.headers)
    ensures |r.headers| <= max
  {
    StatusExactly(s, i, j, r.minorVersion, r.status);
    MessageExactly(s, j, k, max, n, r.msg, r.headers);
  }

  lemma ResponseFound(s: Bytestring, max: nat, i: nat, j: nat, k: nat, n: nat, r: Response)
    requires StatusAt(s, i, j, r.minorVersion, r.status) && MessageAt(s, j, k, n, r.msg, r.headers)
    requires |r.headers| <= max
    ensures i < |s| && j < |s| && k <= |s|
    ensures VersionSpace(s, 0) == Ok(i + 1, r.minorVersion) && StatusSpace(s, i + 1) == Ok(j + 1, r.status)
    ensures ScanText(s, j + 1, j + 1) == Ok(k, r.msg) && ParseHeaders(s, k, 0, max) == Ok(n, r.headers)
  {
    StatusExactly(s, i, j, r.minorVersion, r.status);
    MessageExactly(s, j, k, max, n, r.msg, r.headers);
  }

  /** The same for responses. */
  lemma {:induction false} ResponseExactly(s: Bytestring, max: nat, n: nat, r: Response)
    ensures ParseResponse(s, max) == Ok(n, r) <==> ResponseAt(s, n, r) && |r.headers| <= max
  {
    if ParseResponse(s, max) == Ok(n, r) {
      var i, j, k := ResponseParts(s, max, n, r);
      ResponseThere(s, max, i, j, k, n, r);
    }
    if ResponseAt(s, n, r) && |r.headers| <= max {
      var i: nat, j: nat, k: nat :|
        StatusAt(s, i, j, r.minorVersion, r.status) && MessageAt(s, j, k, n, r.msg, r.headers);
      ResponseFound(s, max, i, j, k, n, r);
      ResponseJoined(s, max, i, j, k, n, r);
    }
  }
}

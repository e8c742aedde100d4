/** The request, response and header parsers as functions of the buffer, and what holds of them: they are decided by the
    bytes they consume, whatever follows. */
module HttpParse {
  import opened Bytes
  import opened HttpScan

  /** `name` is absent for a line that continues the value of the header before it. */
  datatype Header = Header(name: Option<Slice>, value: Slice)

  datatype Request = Request(method_: Slice, path: Slice, minorVersion: nat, headers: seq<Header>)

  datatype Response = Response(minorVersion: nat, status: nat, msg: Slice, headers: seq<Header>)

  /** "HTTP/1." */
  const HTTP_1: Bytestring := [72, 84, 84, 80, 47, 49, 46]

  predicate Digit(b: byte) { 48 <= b <= 57 }

  /** `token_char_map` */
  predicate TokenChar(b: byte) {
    || Digit(b) || 65 <= b <= 90 || 97 <= b <= 122
    || b in [33, 34, 35, 36, 37, 38, 39, 42, 43, 45, 46, 94, 95, 96, 124, 126]
  }

  predicate Blank(b: byte) { b == SP || b == HT }

  // ---- Specifications ----

  function Expect(s: Bytestring, i: nat, c: byte): (r: Result<()>)
    requires i <= |s|
    ensures r.Ok? ==> i < |s| && r.next == i + 1
  {
    if i == |s| then Partial else if s[i] == c then Ok(i + 1, ()) else Bad
  }

  function ExpectAll(s: Bytestring, i: nat, pattern: Bytestring): (r: Result<()>)
    requires i <= |s|
    ensures r.Ok? ==> r.next == i + |pattern| <= |s|
    decreases |pattern|
  {
    if pattern == [] then Ok(i, ())
    else
      var (j, _) :- Expect(s, i, pattern[0]);
      ExpectAll(s, j, pattern[1..])
  }

  function Digits(s: Bytestring, i: nat, v: nat): (r: Result<nat>)
    requires i <= |s|
    ensures r.Ok? ==> i <= r.next < |s| && !Digit(s[r.next])
    decreases |s| - i
  {
    if i == |s| then Partial
    else if Digit(s[i]) then Digits(s, i + 1, v * 10 + (s[i] - 48))
    else Ok(i, v)
  }

  /** `parse_int`: it ends on the byte behind the digits, which has to be there. */
  function ParseInt(s: Bytestring, i: nat): (r: Result<nat>)
    requires i <= |s|
    ensures r.Ok? ==> i < r.next < |s| && !Digit(s[r.next])
  {
    if i == |s| then Partial else if !Digit(s[i]) then Bad else Digits(s, i, 0)
  }

  function ParseVersion(s: Bytestring, i: nat): (r: Result<nat>)
    requires i <= |s|
    ensures r.Ok? ==> i < r.next < |s| && !Digit(s[r.next])
  {
    var (j, _) :- ExpectAll(s, i, HTTP_1);
    ParseInt(s, j)
  }

  function SkipBlanks(s: Bytestring, i: nat): (r: Result<()>)
    requires i <= |s|
    ensures r.Ok? ==> i <= r.next < |s| && !Blank(s[r.next])
    decreases |s| - i
  {
    if i == |s| then Partial else if Blank(s[i]) then SkipBlanks(s, i + 1) else Ok(i, ())
  }

  /** The name of a header and the blanks behind its colon; the value starts at `next`. */
  function ParseName(s: Bytestring, i: nat): (r: Result<Slice>)
    requires i < |s|
    ensures r.Ok? ==> i < r.next < |s| && r.val.start == i && i + r.val.len < r.next
  {
    if !TokenChar(s[i]) then Bad
    else
      var (colon, _) :- ScanName(s, i);
      var (j, _) :- SkipBlanks(s, colon + 1);
      Ok(j, Slice(i, colon - i))
  }

  /** One header line, or the continuation of one. */
  function ParseLine(s: Bytestring, i: nat, first: bool): (r: Result<Header>)
    requires i < |s|
    ensures r.Ok? ==> i < r.next <= |s|
  {
    if !first && Blank(s[i]) then
      var (j, value) :- ScanText(s, i, i);
      Ok(j, Header(None, value))
    else
      var (k, name) :- ParseName(s, i);
      var (j, value) :- ScanText(s, k, k);
      Ok(j, Header(Some(name), value))
  }

  /** `parse_headers` after `num` headers: the headers that follow. */
  function ParseHeaders(s: Bytestring, i: nat, num: nat, max: nat): (r: Result<seq<Header>>)
    requires i <= |s|
    ensures r.Ok? ==> i < r.next <= |s|
    decreases |s| - i
  {
    if i == |s| then Partial
    else if s[i] == CR || s[i] == LF then
      var (j, _) :- LineEnd(s, i, i);
      Ok(j, [])
    else if num == max then Bad
    else
      var (j, h) :- ParseLine(s, i, num == 0);
      var (n, hs) :- ParseHeaders(s, j, num + 1, max);
      Ok(n, [h] + hs)
  }

  /** The empty line that some clients send before a request. */
  function SkipEmptyLine(s: Bytestring, i: nat): (r: Result<()>)
    requires i <= |s|
    ensures r.Ok? ==> i <= r.next <= |s|
  {
    if i == |s| then Partial
    else if s[i] == CR || s[i] == LF then
      var (j, _) :- LineEnd(s, i, i);
      Ok(j, ())
    else Ok(i, ())
  }

  /** The two tokens a request starts with. */
  function ParseTarget(s: Bytestring, i: nat): (r: Result<(Slice, Slice)>)
    requires i <= |s|
    ensures r.Ok? ==> i < r.next <= |s|
  {
    var (j, method_) :- ScanToken(s, i, i);
    var (k, path) :- ScanToken(s, j + 1, j + 1);
    Ok(k + 1, (method_, path))
  }

  /** The version, its line end and the headers. */
  function ParseRequestTail(s: Bytestring, i: nat, max: nat): (r: Result<(nat, seq<Header>)>)
    requires i <= |s|
    ensures r.Ok? ==> i < r.next <= |s|
  {
    var (j, minor) :- ParseVersion(s, i);
    var (k, _) :- LineEnd(s, j, j);
    var (n, headers) :- ParseHeaders(s, k, 0, max);
    Ok(n, (minor, headers))
  }

  function ParseRequest(s: Bytestring, max: nat): (r: Result<Request>)
    ensures r.Ok? ==> r.next <= |s|
  {
    var (i, _) :- SkipEmptyLine(s, 0);
    var (j, target) :- ParseTarget(s, i);
    var (n, tail) :- ParseRequestTail(s, j, max);
    Ok(n, Request(target.0, target.1, tail.0, tail.1))
  }

  /** The version of a response and the space behind it. */
  function VersionSpace(s: Bytestring, i: nat): (r: Result<nat>)
    requires i <= |s|
    ensures r.Ok? ==> i < r.next <= |s|
  {
    var (j, minor) :- ParseVersion(s, i);
    var (k, _) :- Expect(s, j, SP);
    Ok(k, minor)
  }

  /** The status and the space behind it. */
  function StatusSpace(s: Bytestring, i: nat): (r: Result<nat>)
    requires i <= |s|
    ensures r.Ok? ==> i < r.next <= |s|
  {
    var (j, status) :- ParseInt(s, i);
    var (k, _) :- Expect(s, j, SP);
    Ok(k, status)
  }

  function ParseStatus(s: Bytestring, i: nat): (r: Result<(nat, nat)>)
    requires i <= |s|
    ensures r.Ok? ==> i < r.next <= |s|
  {
    var (j, minor) :- VersionSpace(s, i);
    var (k, status) :- StatusSpace(s, j);
    Ok(k, (minor, status))
  }

  /** The message and the headers. */
  function ParseResponseTail(s: Bytestring, i: nat, max: nat): (r: Result<(Slice, seq<Header>)>)
    requires i <= |s|
    ensures r.Ok? ==> i < r.next <= |s|
  {
    var (m, msg) :- ScanText(s, i, i);
    var (n, headers) :- ParseHeaders(s, m, 0, max);
    Ok(n, (msg, headers))
  }

  function ParseResponse(s: Bytestring, max: nat): (r: Result<Response>)
    ensures r.Ok? ==> r.next <= |s|
  {
    var (i, status) :- ParseStatus(s, 0);
    var (n, tail) :- ParseResponseTail(s, i, max);
    Ok(n, Response(status.0, status.1, tail.0, tail.1))
  }

  // ---- Prefix stability: a verdict other than "partial" does not change when more bytes arrive ----

  /** `a` is the verdict on a prefix of length `seen` of the buffer that `b` is the verdict on: they are the same, or
      the prefix was not enough. It is enough for success as soon as it holds what was consumed, and `ahead` bytes
      more. */
  predicate Stable<T(==)>(a: Result<T>, b: Result<T>, seen: nat, ahead: nat) {
    a == b || (a == Partial && (b.Ok? ==> b.next + ahead > seen))
  }

  lemma {:induction false} TokenStable(s: Bytestring, t: Bytestring, start: nat, i: nat)
    requires s <= t && start <= i <= |s|
    ensures Stable(ScanToken(s, start, i), ScanToken(t, start, i), |s|, 1)
    decreases |s| - i
  {
    if i < |s| && s[i] > 32 && s[i] != DEL {
      TokenStable(s, t, start, i + 1);
    }
  }

  lemma {:induction false} TextStable(s: Bytestring, t: Bytestring, start: nat, i: nat)
    requires s <= t && start <= i <= |s|
    ensures Stable(ScanText(s, start, i), ScanText(t, start, i), |s|, 0)
    decreases |s| - i
  {
    if i < |s| && !EndsText(s[i]) {
      TextStable(s, t, start, i + 1);
    }
  }

  lemma {:induction false} NameStable(s: Bytestring, t: Bytestring, i: nat)
    requires s <= t && i <= |s|
    ensures Stable(ScanName(s, i), ScanName(t, i), |s|, 1)
    decreases |s| - i
  {
    if i < |s| && s[i] != COLON && Signed(s[i]) >= 32 {
      NameStable(s, t, i + 1);
    }
  }

  lemma {:induction false} BlanksStable(s: Bytestring, t: Bytestring, i: nat)
    requires s <= t && i <= |s|
    ensures Stable(SkipBlanks(s, i), SkipBlanks(t, i), |s|, 1)
    decreases |s| - i
  {
    if i < |s| && Blank(s[i]) {
      BlanksStable(s, t, i + 1);
    }
  }

  lemma {:induction false} DigitsStable(s: Bytestring, t: Bytestring, i: nat, v: nat)
    requires s <= t && i <= |s|
    ensures Stable(Digits(s, i, v), Digits(t, i, v), |s|, 1)
    decreases |s| - i
  {
    if i < |s| && Digit(s[i]) {
      DigitsStable(s, t, i + 1, v * 10 + (s[i] - 48));
    }
  }

  lemma {:induction false} PatternStable(s: Bytestring, t: Bytestring, i: nat, pattern: Bytestring)
    requires s <= t && i <= |s|
    ensures Stable(ExpectAll(s, i, pattern), ExpectAll(t, i, pattern), |s|, 0)
    decreases |pattern|
  {
    if pattern != [] && Expect(s, i, pattern[0]).Ok? {
      PatternStable(s, t, i + 1, pattern[1..]);
    }
  }

  lemma {:induction false} VersionStable(s: Bytestring, t: Bytestring, i: nat)
    requires s <= t && i <= |s|
    ensures Stable(ParseVersion(s, i), ParseVersion(t, i), |s|, 1)
  {
    PatternStable(s, t, i, HTTP_1);
    var p := ExpectAll(s, i, HTTP_1);
    if p.Ok? {
      DigitsStable(s, t, p.next, 0);
    }
  }

  lemma {:induction false} ParseNameStable(s: Bytestring, t: Bytestring, i: nat)
    requires s <= t && i < |s|
    ensures Stable(ParseName(s, i), ParseName(t, i), |s|, 1)
  {
    NameStable(s, t, i);
    var p := ScanName(s, i);
    if p.Ok? {
      BlanksStable(s, t, p.next + 1);
    }
  }

  lemma {:induction false} LineStable(s: Bytestring, t: Bytestring, i: nat, first: bool)
    requires s <= t && i < |s|
    ensures Stable(ParseLine(s, i, first), ParseLine(t, i, first), |s|, 0)
  {
    TextStable(s, t, i, i);
    ParseNameStable(s, t, i);
    var p := ParseName(s, i);
    if p.Ok? {
      TextStable(s, t, p.next, p.next);
    }
  }

  lemma {:induction false} HeadersStable(s: Bytestring, t: Bytestring, i: nat, num: nat, max: nat)
    requires s <= t && i <= |s|
    ensures Stable(ParseHeaders(s, i, num, max), ParseHeaders(t, i, num, max), |s|, 0)
    decreases |s| - i
  {
    if i < |s| && s[i] != CR && s[i] != LF && num != max {
      LineStable(s, t, i, num == 0);
      var p := ParseLine(s, i, num == 0);
      if p.Ok? {
        HeadersStable(s, t, p.next, num + 1, max);
      }
    }
  }

  lemma {:induction false} TargetStable(s: Bytestring, t: Bytestring, i: nat)
    requires s <= t && i <= |s|
    ensures Stable(ParseTarget(s, i), ParseTarget(t, i), |s|, 0)
  {
    TokenStable(s, t, i, i);
    var a := ScanToken(s, i, i);
    if a.Ok? {
      TokenStable(s, t, a.next + 1, a.next + 1);
    }
  }

  lemma {:induction false} RequestTailStable(s: Bytestring, t: Bytestring, i: nat, max: nat)
    requires s <= t && i <= |s|
    ensures Stable(ParseRequestTail(s, i, max), ParseRequestTail(t, i, max), |s|, 0)
  {
    VersionStable(s, t, i);
    var a := ParseVersion(s, i);
    if a.Ok? {
      var b := LineEnd(s, a.next, a.next);
      if b.Ok? {
        HeadersStable(s, t, b.next, 0, max);
      }
    }
  }

  /** If a buffer parses, every extension parses to the same request; if it is rejected, so is every extension; and the
      bytes consumed would have been enough. */
  lemma {:induction false} RequestStable(s: Bytestring, t: Bytestring, max: nat)
    requires s <= t
    ensures Stable(ParseRequest(s, max), ParseRequest(t, max), |s|, 0)
  {
    var a := SkipEmptyLine(s, 0);
    if a.Ok? {
      TargetStable(s, t, a.next);
      var b := ParseTarget(s, a.next);
      if b.Ok? {
        RequestTailStable(s, t, b.next, max);
      }
    }
  }

  lemma {:induction false} IntStable(s: Bytestring, t: Bytestring, i: nat)
    requires s <= t && i <= |s|
    ensures Stable(ParseInt(s, i), ParseInt(t, i), |s|, 1)
  {
    DigitsStable(s, t, i, 0);
  }

  lemma {:induction false} StatusStable(s: Bytestring, t: Bytestring, i: nat)
    requires s <= t && i <= |s|
    ensures Stable(ParseStatus(s, i), ParseStatus(t, i), |s|, 0)
  {
    VersionSpaceStable(s, t, i);
    var a := VersionSpace(s, i);
    if a.Ok? {
      StatusSpaceStable(s, t, a.next);
    }
  }

  lemma VersionSpaceStable(s: Bytestring, t: Bytestring, i: nat)
    requires s <= t && i <= |s|
    ensures Stable(VersionSpace(s, i), VersionSpace(t, i), |s|, 0)
  {
    VersionStable(s, t, i);
  }

  lemma StatusSpaceStable(s: Bytestring, t: Bytestring, i: nat)
    requires s <= t && i <= |s|
    ensures Stable(StatusSpace(s, i), StatusSpace(t, i), |s|, 0)
  {
    IntStable(s, t, i);
  }

  lemma {:induction false} ResponseTailStable(s: Bytestring, t: Bytestring, i: nat, max: nat)
    requires s <= t && i <= |s|
    ensures Stable(ParseResponseTail(s, i, max), ParseResponseTail(t, i, max), |s|, 0)
  {
    TextStable(s, t, i, i);
    var a := ScanText(s, i, i);
    if a.Ok? {
      HeadersStable(s, t, a.next, 0, max);
    }
  }

  /** The same for responses. */
  lemma {:induction false} ResponseStable(s: Bytestring, t: Bytestring, max: nat)
    requires s <= t
    ensures Stable(ParseResponse(s, max), ParseResponse(t, max), |s|, 0)
  {
    StatusStable(s, t, 0);
    var a := ParseStatus(s, 0);
    if a.Ok? {
      ResponseTailStable(s, t, a.next, max);
    }
  }

  /** The bytes consumed decide: they parse alone, and with anything else behind them, to the same request. */
  lemma {:induction false} RequestLocal(s: Bytestring, max: nat, more: Bytestring)
    requires ParseRequest(s, max).Ok?
    ensures var r := ParseRequest(s, max);
      ParseRequest(s[..r.next], max) == r && ParseRequest(s[..r.next] + more, max) == r
  {
    var head := s[..ParseRequest(s, max).next];
    RequestStable(head, s, max);
    RequestStable(head, head + more, max);
  }

  lemma {:induction false} ResponseLocal(s: Bytestring, max: nat, more: Bytestring)
    requires ParseResponse(s, max).Ok?
    ensures var r := ParseResponse(s, max);
      ParseResponse(s[..r.next], max) == r && ParseResponse(s[..r.next] + more, max) == r
  {
    var head := s[..ParseResponse(s, max).next];
    ResponseStable(head, s, max);
    ResponseStable(head, head + more, max);
  }

  lemma {:induction false} HeadersLocal(s: Bytestring, max: nat, more: Bytestring)
    requires ParseHeaders(s, 0, 0, max).Ok?
    ensures var r := ParseHeaders(s, 0, 0, max);
      ParseHeaders(s[..r.next], 0, 0, max) == r && ParseHeaders(s[..r.next] + more, 0, 0, max) == r
  {
    var head := s[..ParseHeaders(s, 0, 0, max).next];
    HeadersStable(head, s, 0, 0, max);
    HeadersStable(head, head + more, 0, 0, max);
  }

  /** Nothing short of the bytes consumed is enough, and nothing short of them is rejected. */
  lemma {:induction false} RequestNeedsAll(s: Bytestring, max: nat, k: nat)
    requires ParseRequest(s, max).Ok? && k < ParseRequest(s, max).next
    ensures ParseRequest(s[..k], max) == Partial
  {
    RequestStable(s[..k], s, max);
  }

  lemma {:induction false} ResponseNeedsAll(s: Bytestring, max: nat, k: nat)
    requires ParseResponse(s, max).Ok? && k < ParseResponse(s, max).next
    ensures ParseResponse(s[..k], max) == Partial
  {
    ResponseStable(s[..k], s, max);
  }

  lemma {:induction false} HeadersNeedAll(s: Bytestring, max: nat, k: nat)
    requires ParseHeaders(s, 0, 0, max).Ok? && k < ParseHeaders(s, 0, 0, max).next
    ensures ParseHeaders(s[..k], 0, 0, max) == Partial
  {
    HeadersStable(s[..k], s, 0, 0, max);
  }
}

/** The parser as the program runs it: cursors that advance, out-parameters, and a header array filled in place. Each
    method is proved to compute the function of the same name. */
module HttpParser {
  import opened Bytes
  import opened HttpScan
  import Spec = HttpParse
  import opened HttpResume

  type Header = Spec.Header

  method ExpectChar(s: Bytestring, buf: nat, c: byte) returns (r: Result<()>)
    requires buf <= |s|
    ensures r == Spec.Expect(s, buf, c)
  {
    if buf == |s| {
      return Partial;
    }
    if s[buf] != c {
      return Bad;
    }
    return Ok(buf + 1, ());
  }

  method ParseInt(s: Bytestring, start: nat) returns (r: Result<nat>)
    requires start <= |s|
    ensures r == Spec.ParseInt(s, start)
  {
    var buf := start;
    if buf == |s| {
      return Partial;
    }
    if !Spec.Digit(s[buf]) {
      return Bad;
    }
    var v: int := 0;
    while true
      invariant start <= buf <= |s| && v >= 0
      invariant Spec.Digits(s, start, 0) == Spec.Digits(s, buf, v)
      decreases |s| - buf
    {
      if buf == |s| {
        return Partial;
      }
      if Spec.Digit(s[buf]) {
        v := v * 10 + (s[buf] - 48);
      } else {
        break;
      }
      buf := buf + 1;
    }
    return Ok(buf, v);
  }

  method ParseHttpVersion(s: Bytestring, start: nat) returns (r: Result<nat>)
    requires start <= |s|
    ensures r == Spec.ParseVersion(s, start)
  {
    var buf: nat, k: nat := start, 0;
    assert Spec.HTTP_1[0..] == Spec.HTTP_1;
    while k < |Spec.HTTP_1|
      invariant k <= |Spec.HTTP_1| && buf <= |s|
      invariant Spec.ExpectAll(s, start, Spec.HTTP_1) == Spec.ExpectAll(s, buf, Spec.HTTP_1[k..])
    {
      assert Spec.HTTP_1[k..][0] == Spec.HTTP_1[k] && Spec.HTTP_1[k..][1..] == Spec.HTTP_1[k + 1..];
      var e := ExpectChar(s, buf, Spec.HTTP_1[k]);
      if !e.Ok? {
        return if e.Partial? then Partial else Bad;
      }
      buf, k := e.next, k + 1;
    }
    r := ParseInt(s, buf);
  }

  method SkipBlanks(s: Bytestring, start: nat) returns (r: Result<()>)
    requires start <= |s|
    ensures r == Spec.SkipBlanks(s, start)
  {
    var buf := start;
    while true
      invariant start <= buf <= |s|
      invariant Spec.SkipBlanks(s, start) == Spec.SkipBlanks(s, buf)
      decreases |s| - buf
    {
      if buf == |s| {
        return Partial;
      }
      if !Spec.Blank(s[buf]) {
        break;
      }
      buf := buf + 1;
    }
    return Ok(buf, ());
  }

  method ParseName(s: Bytestring, start: nat) returns (r: Result<Slice>)
    requires start < |s|
    ensures r == Spec.ParseName(s, start)
  {
    if !Spec.TokenChar(s[start]) {
      return Bad;
    }
    var n := FinishName(s, start);
    if !n.Ok? {
      return if n.Partial? then Partial else Bad;
    }
    var b := SkipBlanks(s, n.next + 1);
    if !b.Ok? {
      return if b.Partial? then Partial else Bad;
    }
    return Ok(b.next, Slice(start, n.next - start));
  }

  /** Headers read before those of `r`. */
  function After(done: seq<Header>, r: Result<seq<Header>>): Result<seq<Header>> {
    match r
    case Ok(n, hs) => Ok(n, done + hs)
    case _ => r
  }

  lemma AfterTwice(done: seq<Header>, h: Header, r: Result<seq<Header>>)
    ensures After(done, After([h], r)) == After(done + [h], r) && After([], r) == r
  {
    if r.Ok? {
      Reassociate(done, [h], r.val);
      assert [] + r.val == r.val;
    }
  }

  /** The headers that the parse reads to their end, whatever its verdict. */
  function HeadersRead(s: Bytestring, i: nat, num: nat, max: nat): seq<Header>
    requires i <= |s|
    decreases |s| - i
  {
    if i == |s| || s[i] == CR || s[i] == LF || num == max then []
    else
      match Spec.ParseLine(s, i, num == 0)
      case Ok(j, h) => [h] + HeadersRead(s, j, num + 1, max)
      case _ => []
  }

  /** If it succeeds, they are its headers. */
  lemma {:induction false} HeadersReadAll(s: Bytestring, i: nat, num: nat, max: nat)
    requires i <= |s| && Spec.ParseHeaders(s, i, num, max).Ok?
    ensures HeadersRead(s, i, num, max) == Spec.ParseHeaders(s, i, num, max).val
    decreases |s| - i
  {
    if s[i] != CR && s[i] != LF {
      HeadersReadAll(s, Spec.ParseLine(s, i, num == 0).next, num + 1, max);
    }
  }

  lemma HeadersReadMore(s: Bytestring, buf: nat, num: nat, max: nat, done: seq<Header>, next: nat, h: Header)
    requires buf < |s| && s[buf] != CR && s[buf] != LF && num != max && Spec.ParseLine(s, buf, num == 0) == Ok(next, h)
    ensures done + HeadersRead(s, buf, num, max) == done + [h] + HeadersRead(s, next, num + 1, max)
  {
    Reassociate(done, [h], HeadersRead(s, next, num + 1, max));
  }

  /** One more header read. */
  lemma HeaderTaken(s: Bytestring, start: nat, buf: nat, num: nat, max: nat, done: seq<Header>, next: nat, h: Header)
    requires start <= |s| && buf < |s| && s[buf] != CR && s[buf] != LF && num != max
    requires Spec.ParseHeaders(s, start, 0, max) == After(done, Spec.ParseHeaders(s, buf, num, max))
    requires Spec.ParseLine(s, buf, num == 0) == Ok(next, h)
    ensures Spec.ParseHeaders(s, start, 0, max) == After(done + [h], Spec.ParseHeaders(s, next, num + 1, max))
  {
    AfterTwice(done, h, Spec.ParseHeaders(s, next, num + 1, max));
  }

  lemma HeaderFails(s: Bytestring, start: nat, buf: nat, num: nat, max: nat, done: seq<Header>)
    requires start <= |s| && buf < |s| && s[buf] != CR && s[buf] != LF && num != max
    requires Spec.ParseHeaders(s, start, 0, max) == After(done, Spec.ParseHeaders(s, buf, num, max))
    requires !Spec.ParseLine(s, buf, num == 0).Ok?
    ensures Spec.ParseHeaders(s, start, 0, max).Code() == Spec.ParseLine(s, buf, num == 0).Code()
    ensures !Spec.ParseHeaders(s, start, 0, max).Ok?
  {
  }

  /** No header left to read, or no room for one. */
  lemma HeadersStop(s: Bytestring, start: nat, buf: nat, num: nat, max: nat, done: seq<Header>)
    requires start <= |s| && buf <= |s|
    requires buf == |s| || s[buf] == CR || s[buf] == LF || num == max
    requires Spec.ParseHeaders(s, start, 0, max) == After(done, Spec.ParseHeaders(s, buf, num, max))
    ensures HeadersRead(s, buf, num, max) == [] && done + [] == done
    ensures Spec.ParseHeaders(s, start, 0, max) ==
      if buf == |s| then Partial
      else if s[buf] == CR || s[buf] == LF then
        match LineEnd(s, buf, buf) case Ok(n, _) => Ok(n, done) case Partial => Partial case Bad => Bad
      else Bad
  {
    assert done + [] == done;
  }

  /** One header line, into its slot and no other. */
  method ParseLine(s: Bytestring, start: nat, headers: array<Header>, num: nat) returns (r: Result<()>)
    requires start < |s| && num < headers.Length
    modifies headers
    ensures var spec := Spec.ParseLine(s, start, num == 0);
      && r.Code() == spec.Code() && (r.Ok? <==> spec.Ok?)
      && (r.Ok? ==> headers[num] == spec.val)
    ensures forall k :: 0 <= k < headers.Length && k != num ==> headers[k] == old(headers[k])
  {
    var at := start;
    if !(num != 0 && Spec.Blank(s[start])) {
      var n := ParseName(s, start);
      if !n.Ok? {
        return if n.Partial? then Partial else Bad;
      }
      headers[num] := headers[num].(name := Some(n.val));
      at := n.next;
    } else {
      headers[num] := headers[num].(name := None);
    }
    var v := GetTokenToEol(s, at);
    if !v.Ok? {
      return if v.Partial? then Partial else Bad;
    }
    headers[num] := headers[num].(value := v.val);
    return Ok(v.next, ());
  }

  /** One pass of the header loop: the headers read so far are one more, or the parse is over. */
  method TakeHeader(s: Bytestring, ghost start: nat, buf: nat, headers: array<Header>, num: nat, ghost max: nat)
    returns (v: Result<()>)
    requires start <= |s| && buf < |s| && s[buf] != CR && s[buf] != LF && num < max <= headers.Length
    requires Spec.ParseHeaders(s, start, 0, max) == After(headers[..num], Spec.ParseHeaders(s, buf, num, max))
    requires HeadersRead(s, start, 0, max) == headers[..num] + HeadersRead(s, buf, num, max)
    modifies headers
    ensures v.Ok? ==> buf < v.next <= |s|
    ensures v.Ok? ==>
      Spec.ParseHeaders(s, start, 0, max) == After(headers[..num + 1], Spec.ParseHeaders(s, v.next, num + 1, max))
    ensures v.Ok? ==> HeadersRead(s, start, 0, max) == headers[..num + 1] + HeadersRead(s, v.next, num + 1, max)
    ensures !v.Ok? ==> HeadersRead(s, start, 0, max) == headers[..num]
    ensures !v.Ok? ==>
      !Spec.ParseHeaders(s, start, 0, max).Ok? && v.Code() == Spec.ParseHeaders(s, start, 0, max).Code()
    ensures forall k :: 0 <= k < headers.Length && k != num ==> headers[k] == old(headers[k])
  {
    ghost var done := headers[..num];
    v := ParseLine(s, buf, headers, num);
    if v.Ok? {
      HeaderTaken(s, start, buf, num, max, done, v.next, headers[num]);
      HeadersReadMore(s, buf, num, max, done, v.next, headers[num]);
      assert headers[..num + 1] == done + [headers[num]];
    } else {
      HeaderFails(s, start, buf, num, max, done);
      assert done + [] == done && headers[..num] == done;
    }
  }

  /** `parse_headers`: the first `num` slots hold the headers read, on failure too, and the slots behind them are
      untouched, but for the one that was being filled when the parse failed. */
  method ParseHeaders(s: Bytestring, start: nat, headers: array<Header>, max: nat) returns (r: Result<()>, num: nat)
    requires start <= |s| && max <= headers.Length
    modifies headers
    ensures var spec := Spec.ParseHeaders(s, start, 0, max);
      && num <= max
      && r.Code() == spec.Code() && (r.Ok? <==> spec.Ok?)
      && (r.Ok? ==> headers[..num] == spec.val && headers[num..] == old(headers[..])[num..])
    ensures headers[..num] == HeadersRead(s, start, 0, max)
    ensures forall k :: num < k < headers.Length ==> headers[k] == old(headers[k])
  {
    var buf := start;
    num := 0;
    assert headers[..0] == [];
    AfterTwice([], Spec.Header(None, Slice(0, 0)), Spec.ParseHeaders(s, start, 0, max));
    assert [] + HeadersRead(s, start, 0, max) == HeadersRead(s, start, 0, max);
    while true
      invariant start <= buf <= |s| && num <= max
      invariant Spec.ParseHeaders(s, start, 0, max) == After(headers[..num], Spec.ParseHeaders(s, buf, num, max))
      invariant HeadersRead(s, start, 0, max) == headers[..num] + HeadersRead(s, buf, num, max)
      invariant forall k :: num <= k < headers.Length ==> headers[k] == old(headers[k])
      decreases |s| - buf
    {
      if buf == |s| {
        HeadersStop(s, start, buf, num, max, headers[..num]);
        return Partial, num;
      }
      if s[buf] == CR || s[buf] == LF {
        HeadersStop(s, start, buf, num, max, headers[..num]);
        var e := FoundCtl(s, buf, buf);
        return match e case Ok(n, _) => Ok(n, ()) case Partial => Partial case Bad => Bad, num;
      }
      if num == max {
        HeadersStop(s, start, buf, num, max, headers[..num]);
        return Bad, num;
      }
      var v := TakeHeader(s, start, buf, headers, num, max);
      if !v.Ok? {
        return v, num;
      }
      buf, num := v.next, num + 1;
    }
  }

  /** `is_complete` */
  method CheckComplete(s: Bytestring, lastLen: nat) returns (r: Result<()>)
    requires lastLen <= |s|
    ensures r == IsComplete(s, lastLen)
  {
    var count := 0;
    var buf: nat := if lastLen < 3 then 0 else lastLen - 3;
    while true
      invariant 0 <= count < 2 && buf <= |s|
      invariant IsComplete(s, lastLen) == FindBlankLine(s, buf, count)
      decreases |s| - buf
    {
      if buf == |s| {
        return Partial;
      }
      if s[buf] == CR {
        buf := buf + 1;
        var e := ExpectChar(s, buf, LF);
        if !e.Ok? {
          return if e.Partial? then Partial else Bad;
        }
        buf, count := e.next, count + 1;
      } else if s[buf] == LF {
        buf, count := buf + 1, count + 1;
      } else {
        buf, count := buf + 1, 0;
      }
      if count == 2 {
        return Ok(buf, ());
      }
    }
  }

  method SkipEmptyLine(s: Bytestring, start: nat) returns (r: Result<()>)
    requires start <= |s|
    ensures r == Spec.SkipEmptyLine(s, start)
  {
    if start == |s| {
      return Partial;
    }
    if s[start] == CR {
      r := ExpectChar(s, start + 1, LF);
    } else if s[start] == LF {
      r := Ok(start + 1, ());
    } else {
      r := Ok(start, ());
    }
  }

  /** The out-parameters of a request parse, whatever its verdict: what is absent is the null pointer. */
  datatype RequestOut = RequestOut(method_: Option<Slice>, path: Option<Slice>, minor: int, headers: seq<Header>)

  const NO_REQUEST := RequestOut(None, None, -1, [])

  function MethodOut(s: Bytestring, i: nat): Option<Slice>
    requires i <= |s|
  {
    match ScanToken(s, i, i) case Ok(_, w) => Some(w) case _ => None
  }

  function PathOut(s: Bytestring, i: nat): Option<Slice>
    requires i <= |s|
  {
    match ScanToken(s, i, i) case Ok(j, _) => MethodOut(s, j + 1) case _ => None
  }

  function MinorOut(s: Bytestring, i: nat): int
    requires i <= |s|
  {
    match Spec.ParseVersion(s, i) case Ok(_, v) => v case _ => -1
  }

  function TailOut(s: Bytestring, i: nat, max: nat): seq<Header>
    requires i <= |s|
  {
    match Spec.ParseVersion(s, i)
    case Ok(j, _) => (match LineEnd(s, j, j) case Ok(k, _) => HeadersRead(s, k, 0, max) case _ => [])
    case _ => []
  }

  /** What `parse_request` leaves: everything it read before it failed, if it failed. */
  function RequestOuts(s: Bytestring, max: nat): RequestOut {
    match Spec.SkipEmptyLine(s, 0)
    case Ok(i, _) =>
      (match Spec.ParseTarget(s, i)
       case Ok(j, _) => RequestOut(MethodOut(s, i), PathOut(s, i), MinorOut(s, j), TailOut(s, j, max))
       case _ => RequestOut(MethodOut(s, i), PathOut(s, i), -1, []))
    case _ => NO_REQUEST
  }

  method ParseRequestTail(s: Bytestring, start: nat, headers: array<Header>, max: nat)
    returns (r: Result<()>, minor: int, num: nat)
    requires start <= |s| && max <= headers.Length
    modifies headers
    ensures var spec := Spec.ParseRequestTail(s, start, max);
      && num <= max && r.Code() == spec.Code() && (r.Ok? <==> spec.Ok?)
      && (r.Ok? ==> minor == spec.val.0 && headers[..num] == spec.val.1)
    ensures minor == MinorOut(s, start) && headers[..num] == TailOut(s, start, max)
    ensures forall k :: num < k < headers.Length ==> headers[k] == old(headers[k])
  {
    minor, num := -1, 0;
    var v := ParseHttpVersion(s, start);
    if !v.Ok? {
      return if v.Partial? then Partial else Bad, -1, 0;
    }
    minor := v.val;
    var e := FoundCtl(s, v.next, v.next);
    if !e.Ok? {
      return if e.Partial? then Partial else Bad, minor, 0;
    }
    r, num := ParseHeaders(s, e.next, headers, max);
  }

  method ParseTarget(s: Bytestring, start: nat) returns (r: Result<()>, method_: Option<Slice>, path: Option<Slice>)
    requires start <= |s|
    ensures var spec := Spec.ParseTarget(s, start);
      && r.Code() == spec.Code() && (r.Ok? <==> spec.Ok?)
      && (r.Ok? ==> method_.Some? && path.Some? && spec.val == (method_.value, path.value))
    ensures method_ == MethodOut(s, start) && path == PathOut(s, start)
  {
    method_, path := None, None;
    var m := AdvanceToken(s, start);
    if !m.Ok? {
      return if m.Partial? then Partial else Bad, None, None;
    }
    method_ := Some(m.val);
    var p := AdvanceToken(s, m.next + 1);
    if !p.Ok? {
      return if p.Partial? then Partial else Bad, method_, None;
    }
    return Ok(p.next + 1, ()), method_, Some(p.val);
  }

  /** `parse_request` */
  method ParseRequest(s: Bytestring, headers: array<Header>, max: nat)
    returns (ret: int, method_: Option<Slice>, path: Option<Slice>, minorVersion: int, num: nat)
    requires max <= headers.Length
    modifies headers
    ensures var spec := Spec.ParseRequest(s, max);
      && ret == spec.Code() && num <= max
      && (spec.Ok? ==> method_.Some? && path.Some? && minorVersion >= 0)
      && (spec.Ok? ==> spec.val == Spec.Request(method_.value, path.value, minorVersion, headers[..num]))
    ensures RequestOut(method_, path, minorVersion, headers[..num]) == RequestOuts(s, max)
    ensures forall k :: num < k < headers.Length ==> headers[k] == old(headers[k])
  {
    method_, path, minorVersion, num := None, None, -1, 0;
    var a := SkipEmptyLine(s, 0);
    if !a.Ok? {
      ret := a.Code();
      return;
    }
    var p;
    p, method_, path := ParseTarget(s, a.next);
    if !p.Ok? {
      ret := p.Code();
      return;
    }
    var t;
    t, minorVersion, num := ParseRequestTail(s, p.next, headers, max);
    ret := t.Code();
  }

  /** `phr_parse_request` on `s`, of which `lastLen` bytes were there at the call before. If the check stops the parse,
      the out-parameters say that nothing was read. */
  method PhrParseRequest(s: Bytestring, headers: array<Header>, maxHeaders: nat, lastLen: nat)
    returns (ret: int, method_: Option<Slice>, path: Option<Slice>, minorVersion: int, num: nat)
    requires lastLen <= |s| && maxHeaders <= headers.Length
    modifies headers
    ensures var spec := HttpResume.PhrParseRequest(s, maxHeaders, lastLen);
      && (ret == -2 <==> spec.Partial?) && (ret == -1 <==> spec.Bad?) && (spec.Ok? ==> ret == spec.next)
      && num <= maxHeaders
      && (spec.Ok? ==> method_.Some? && path.Some? && minorVersion >= 0)
      && (spec.Ok? ==> spec.val == Spec.Request(method_.value, path.value, minorVersion, headers[..num]))
    ensures RequestOut(method_, path, minorVersion, headers[..num]) ==
      if lastLen != 0 && !IsComplete(s, lastLen).Ok? then NO_REQUEST else RequestOuts(s, maxHeaders)
    ensures forall k :: num < k < headers.Length ==> headers[k] == old(headers[k])
  {
    if lastLen != 0 {
      var c := CheckComplete(s, lastLen);
      if !c.Ok? {
        return c.Code(), None, None, -1, 0;
      }
    }
    ret, method_, path, minorVersion, num := ParseRequest(s, headers, maxHeaders);
  }

  /** The out-parameters of a response parse, whatever its verdict. */
  datatype ResponseOut = ResponseOut(minor: int, status: nat, msg: Option<Slice>, headers: seq<Header>)

  const NO_RESPONSE := ResponseOut(-1, 0, None, [])

  function StatusOut(s: Bytestring, i: nat): nat
    requires i <= |s|
  {
    match Spec.VersionSpace(s, i)
    case Ok(j, _) => (match Spec.ParseInt(s, j) case Ok(_, v) => v case _ => 0)
    case _ => 0
  }

  /** What `parse_response` leaves. */
  function ResponseOuts(s: Bytestring, max: nat): ResponseOut {
    match Spec.ParseStatus(s, 0)
    case Ok(i, _) =>
      (match ScanText(s, i, i)
       case Ok(m, msg) => ResponseOut(MinorOut(s, 0), StatusOut(s, 0), Some(msg), HeadersRead(s, m, 0, max))
       case _ => ResponseOut(MinorOut(s, 0), StatusOut(s, 0), None, []))
    case _ => ResponseOut(MinorOut(s, 0), StatusOut(s, 0), None, [])
  }

  method ParseStatus(s: Bytestring, start: nat) returns (r: Result<()>, minor: int, status: nat)
    requires start <= |s|
    ensures var spec := Spec.ParseStatus(s, start);
      && r.Code() == spec.Code() && (r.Ok? <==> spec.Ok?)
      && (r.Ok? ==> spec.val == (minor, status))
    ensures minor == MinorOut(s, start) && status == StatusOut(s, start)
  {
    minor, status := -1, 0;
    var v := ParseHttpVersion(s, start);
    if !v.Ok? {
      return if v.Partial? then Partial else Bad, -1, 0;
    }
    minor := v.val;
    if s[v.next] != SP {
      return Bad, minor, 0;
    }
    var c := ParseInt(s, v.next + 1);
    if !c.Ok? {
      return if c.Partial? then Partial else Bad, minor, 0;
    }
    status := c.val;
    if s[c.next] != SP {
      return Bad, minor, status;
    }
    return Ok(c.next + 1, ()), minor, status;
  }

  /** `parse_response` */
  method ParseResponse(s: Bytestring, headers: array<Header>, max: nat)
    returns (ret: int, minorVersion: int, status: nat, msg: Option<Slice>, num: nat)
    requires max <= headers.Length
    modifies headers
    ensures var spec := Spec.ParseResponse(s, max);
      && ret == spec.Code() && num <= max
      && (spec.Ok? ==> minorVersion >= 0 && msg.Some?)
      && (spec.Ok? ==> spec.val == Spec.Response(minorVersion, status, msg.value, headers[..num]))
    ensures ResponseOut(minorVersion, status, msg, headers[..num]) == ResponseOuts(s, max)
    ensures forall k :: num < k < headers.Length ==> headers[k] == old(headers[k])
  {
    msg, num := None, 0;
    var v;
    v, minorVersion, status := ParseStatus(s, 0);
    if !v.Ok? {
      ret := v.Code();
      return;
    }
    var m := GetTokenToEol(s, v.next);
    if !m.Ok? {
      ret := m.Code();
      return;
    }
    msg := Some(m.val);
    var h;
    h, num := ParseHeaders(s, m.next, headers, max);
    ret := h.Code();
  }

  /** `phr_parse_response` */
  method PhrParseResponse(s: Bytestring, headers: array<Header>, maxHeaders: nat, lastLen: nat)
    returns (ret: int, minorVersion: int, status: nat, msg: Option<Slice>, num: nat)
    requires lastLen <= |s| && maxHeaders <= headers.Length
    modifies headers
    ensures var spec := HttpResume.PhrParseResponse(s, maxHeaders, lastLen);
      && (ret == -2 <==> spec.Partial?) && (ret == -1 <==> spec.Bad?) && (spec.Ok? ==> ret == spec.next)
      && num <= maxHeaders
      && (spec.Ok? ==> minorVersion >= 0 && msg.Some?)
      && (spec.Ok? ==> spec.val == Spec.Response(minorVersion, status, msg.value, headers[..num]))
    ensures ResponseOut(minorVersion, status, msg, headers[..num]) ==
      if lastLen != 0 && !IsComplete(s, lastLen).Ok? then NO_RESPONSE else ResponseOuts(s, maxHeaders)
    ensures forall k :: num < k < headers.Length ==> headers[k] == old(headers[k])
  {
    if lastLen != 0 {
      var c := CheckComplete(s, lastLen);
      if !c.Ok? {
        return c.Code(), -1, 0, None, 0;
      }
    }
    ret, minorVersion, status, msg, num := ParseResponse(s, headers, maxHeaders);
  }

  /** `phr_parse_headers` */
  method PhrParseHeaders(s: Bytestring, headers: array<Header>, maxHeaders: nat, lastLen: nat)
    returns (ret: int, num: nat)
    requires lastLen <= |s| && maxHeaders <= headers.Length
    modifies headers
    ensures var spec := HttpResume.PhrParseHeaders(s, maxHeaders, lastLen);
      && (ret == -2 <==> spec.Partial?) && (ret == -1 <==> spec.Bad?) && (spec.Ok? ==> ret == spec.next)
      && num <= maxHeaders && (spec.Ok? ==> spec.val == headers[..num])
    ensures headers[..num] ==
      if lastLen != 0 && !IsComplete(s, lastLen).Ok? then [] else HeadersRead(s, 0, 0, maxHeaders)
    ensures forall k :: num < k < headers.Length ==> headers[k] == old(headers[k])
  {
    num := 0;
    if lastLen != 0 {
      var c := CheckComplete(s, lastLen);
      if !c.Ok? {
        ret := c.Code();
        return;
      }
    }
    var h;
    h, num := ParseHeaders(s, 0, headers, maxHeaders);
    ret := h.Code();
  }

  // ---- The width of `int` ----

  const INT_MAX := 0x7FFF_FFFF

  /** No step of `v = v * 10 + *buf - '0'` leaves the range of `int`. */
  predicate NoOverflow(s: Bytestring, i: nat, v: nat)
    requires i <= |s|
    decreases |s| - i
  {
    i == |s| || !Spec.Digit(s[i]) || (v * 10 + s[i] <= INT_MAX && NoOverflow(s, i + 1, v * 10 + (s[i] - 48)))
  }

  /** The number that the digits from `i` on continue `v` to. */
  function Value(s: Bytestring, i: nat, v: nat): (n: nat)
    requires i <= |s|
    ensures n >= v
    decreases |s| - i
  {
    if i == |s| || !Spec.Digit(s[i]) then v else Value(s, i + 1, v * 10 + (s[i] - 48))
  }

  /** The character is added before '0' is taken off. So the digits fit an `int` on the way if and only if their number
      is at most `INT_MAX - 48`: then, and only then, the number in the model is the one in the program. */
  lemma {:induction false} NoOverflowExactly(s: Bytestring, i: nat, v: nat)
    requires i < |s| && Spec.Digit(s[i])
    ensures NoOverflow(s, i, v) <==> Value(s, i, v) + 48 <= INT_MAX
    ensures Spec.Digits(s, i, v).Ok? ==> Spec.Digits(s, i, v).val == Value(s, i, v)
    decreases |s| - i
  {
    var w := v * 10 + (s[i] - 48);
    if i + 1 < |s| && Spec.Digit(s[i + 1]) {
      NoOverflowExactly(s, i + 1, w);
    }
  }
}

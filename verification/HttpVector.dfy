/** The scans of a build with SSE 4.2: sixteen bytes at a time as long as sixteen are left, then the byte loops. */
module HttpVector {
  import opened Bytes
  import opened HttpScan
  import opened HttpParse

  /** Pairs of inclusive bounds, as they lie in the `ranges` strings. */
  type Ranges = seq<(byte, byte)>

  /** Everything `ADVANCE_TOKEN` has to look at: control characters, space, DEL. */
  const TOKEN_RANGES: Ranges := [(0, 32), (127, 127)]

  /** Everything that ends a text; HT is allowed. */
  const TEXT_RANGES: Ranges := [(0, 8), (10, 31), (127, 127)]

  /** Colon and control characters. */
  const NAME_RANGES: Ranges := [(58, 58), (0, 31)]

  const BLOCK := 16

  predicate InRanges(b: byte, ranges: Ranges) {
    exists k :: 0 <= k < |ranges| && ranges[k].0 <= b <= ranges[k].1
  }

  /** `_mm_cmpestri` in its ranges mode on a block of sixteen bytes: the least index in a range, or sixteen. */
  method CompareRanges(block: Bytestring, ranges: Ranges) returns (r: nat)
    requires |block| == BLOCK
    ensures r <= BLOCK
    ensures forall k :: 0 <= k < r ==> !InRanges(block[k], ranges)
    ensures r < BLOCK ==> InRanges(block[r], ranges)
  {
    r := 0;
    while r < BLOCK && !InRanges(block[r], ranges)
      invariant r <= BLOCK
      invariant forall k :: 0 <= k < r ==> !InRanges(block[k], ranges)
    {
      r := r + 1;
    }
  }

  /** The end of the blocks that fit between `i` and the end of the buffer. */
  function BlockEnd(s: Bytestring, i: nat): (e: nat)
    requires i <= |s|
    ensures i <= e <= |s| < e + BLOCK
  {
    i + (|s| - i) / BLOCK * BLOCK
  }

  /** `findchar_fast`: it stops on the first byte in a range if that lies in a block, and else behind the last block. */
  method FindCharFast(s: Bytestring, from: nat, ranges: Ranges) returns (buf: nat, found: bool)
    requires from <= |s|
    ensures from <= buf <= BlockEnd(s, from)
    ensures forall k :: from <= k < buf ==> !InRanges(s[k], ranges)
    ensures if found then buf < BlockEnd(s, from) && InRanges(s[buf], ranges) else buf == BlockEnd(s, from)
  {
    buf, found := from, false;
    if |s| - buf >= BLOCK {
      var left := (|s| - buf) / BLOCK * BLOCK;
      while left != 0
        invariant from <= buf && buf + left == BlockEnd(s, from) && left % BLOCK == 0 && left >= 0
        invariant forall k :: from <= k < buf ==> !InRanges(s[k], ranges)
        decreases left
      {
        ghost var was := buf;
        var block := s[buf..buf + BLOCK];
        var r := CompareRanges(block, ranges);
        forall k | was <= k < was + r
          ensures !InRanges(s[k], ranges)
        {
          assert s[k] == block[k - was];
        }
        if r != BLOCK {
          buf, found := buf + r, true;
          break;
        }
        buf := buf + BLOCK;
        left := left - BLOCK;
      }
    }
  }

  lemma TokenRanges(b: byte)
    ensures InRanges(b, TOKEN_RANGES) <==> b <= 32 || b == DEL
  {
    assert TOKEN_RANGES[0] == (0, 32) && TOKEN_RANGES[1] == (127, 127);
  }

  lemma TextRanges(b: byte)
    ensures InRanges(b, TEXT_RANGES) <==> EndsText(b)
  {
    assert TEXT_RANGES[0] == (0, 8) && TEXT_RANGES[1] == (10, 31) && TEXT_RANGES[2] == (127, 127);
  }

  lemma NameRanges(b: byte)
    ensures InRanges(b, NAME_RANGES) <==> b == COLON || b < 32
  {
    assert NAME_RANGES[0] == (58, 58) && NAME_RANGES[1] == (0, 31);
  }

  /** `ADVANCE_TOKEN` of the vectorised build computes what the byte loop computes, on every buffer. */
  method AdvanceTokenVector(s: Bytestring, tokStart: nat) returns (r: Result<Slice>)
    requires tokStart <= |s|
    ensures r == ScanToken(s, tokStart, tokStart)
  {
    var buf, found := FindCharFast(s, tokStart, TOKEN_RANGES);
    forall k | tokStart <= k < buf ensures !(s[k] <= 32 || s[k] == DEL) { TokenRanges(s[k]); }
    TokenSkips(s, tokStart, tokStart, buf);
    r := FinishToken(s, tokStart, buf);
  }

  /** `get_token_to_eol` of the vectorised build computes what the byte loop computes, on every buffer. */
  method GetTokenToEolVector(s: Bytestring, tokenStart: nat) returns (r: Result<Slice>)
    requires tokenStart <= |s|
    ensures r == ScanText(s, tokenStart, tokenStart)
  {
    var buf, found := FindCharFast(s, tokenStart, TEXT_RANGES);
    forall k | tokenStart <= k < buf ensures !EndsText(s[k]) { TextRanges(s[k]); }
    TextSkips(s, tokenStart, tokenStart, buf);
    if found {
      TextRanges(s[buf]);
    } else {
      while true
        invariant tokenStart <= buf <= |s|
        invariant ScanText(s, tokenStart, tokenStart) == ScanText(s, tokenStart, buf)
        decreases |s| - buf
      {
        if buf == |s| {
          return Partial;
        }
        if !Printable(s[buf]) && EndsText(s[buf]) {
          break;
        }
        buf := buf + 1;
      }
    }
    r := FoundCtl(s, tokenStart, buf);
  }

  // ---- Header names: the one scan whose builds differ ----

  /** The first byte from `i` on that is a colon or a control character, if it lies before `end`, and else `end`. */
  function NameStop(s: Bytestring, i: nat, end: nat): (n: nat)
    requires i <= end <= |s|
    ensures i <= n <= end
    ensures forall k :: i <= k < n ==> s[k] != COLON && s[k] >= 32
    ensures n < end ==> s[n] == COLON || s[n] < 32
    decreases end - i
  {
    if i == end || s[i] == COLON || s[i] < 32 then i else NameStop(s, i + 1, end)
  }

  /** The header-name scan of the vectorised build: bytes from 128 up pass in a block, but not behind the last block. */
  function VectorName(s: Bytestring, i: nat): (r: Result<()>)
    requires i <= |s|
    ensures r.Ok? ==> i <= r.next < |s|
  {
    ScanName(s, NameStop(s, i, BlockEnd(s, i)))
  }

  method NameVector(s: Bytestring, from: nat) returns (r: Result<()>)
    requires from <= |s|
    ensures r == VectorName(s, from)
  {
    var buf, found := FindCharFast(s, from, NAME_RANGES);
    forall k | from <= k < buf ensures s[k] != COLON && s[k] >= 32 { NameRanges(s[k]); }
    if found {
      NameRanges(s[buf]);
    }
    r := FinishName(s, buf);
  }

  ghost predicate SevenBit(s: Bytestring, from: nat, to: nat)
    requires from <= to <= |s|
  {
    forall k :: from <= k < to ==> s[k] < 128
  }

  lemma {:induction false} NameRejects(s: Bytestring, i: nat, k: nat)
    requires i <= k < |s| && s[k] >= 128
    requires forall j :: i <= j < k ==> s[j] != COLON
    ensures ScanName(s, i) == Bad
    decreases k - i
  {
    if i < k && Signed(s[i]) >= 32 {
      NameRejects(s, i + 1, k);
    }
  }

  /** Where a name that starts at `i` can end: at the first colon or control character, or at the end of the buffer. */
  function NameEnd(s: Bytestring, i: nat): (f: nat)
    requires i <= |s|
    ensures i <= f <= |s|
  {
    NameStop(s, i, |s|)
  }

  /** Where the byte loop of the vectorised build takes over: behind the last block, or where the name ends before
      that. */
  function TakeOver(s: Bytestring, i: nat): (e: nat)
    requires i <= |s|
    ensures i <= e <= NameEnd(s, i)
  {
    var end, f := BlockEnd(s, i), NameEnd(s, i);
    if end <= f then end else f
  }

  lemma {:induction false} StopIsTakeOver(s: Bytestring, i: nat)
    requires i <= |s|
    ensures NameStop(s, i, BlockEnd(s, i)) == TakeOver(s, i)
  {
    NameStopIs(s, i, BlockEnd(s, i), TakeOver(s, i));
  }

  lemma {:induction false} NameStopIs(s: Bytestring, i: nat, end: nat, n: nat)
    requires i <= n <= end <= |s|
    requires forall k :: i <= k < n ==> s[k] != COLON && s[k] >= 32
    requires n < end ==> s[n] == COLON || s[n] < 32
    ensures NameStop(s, i, end) == n
    decreases n - i
  {
    if i < n {
      NameStopIs(s, i + 1, end, n);
    }
  }

  /** The verdict at the end of a name. */
  function AtEnd(s: Bytestring, f: nat): Result<()>
    requires f <= |s|
  {
    if f == |s| then Partial else if s[f] == COLON then Ok(f, ()) else Bad
  }

  /** The byte loop, started anywhere before the end of the name, looks for 7-bit bytes up to there. */
  lemma {:induction false} ScanNameIs(s: Bytestring, i: nat, e: nat)
    requires i <= |s| && i <= e <= NameEnd(s, i)
    ensures var f := NameEnd(s, i); ScanName(s, e) == if SevenBit(s, e, f) then AtEnd(s, f) else Bad
  {
    var f := NameEnd(s, i);
    if SevenBit(s, e, f) {
      NameSkips(s, e, f);
    } else {
      var k :| e <= k < f && s[k] >= 128;
      NameRejects(s, e, k);
    }
  }

  lemma {:induction false} VectorNameIs(s: Bytestring, i: nat)
    requires i <= |s|
    ensures var f := NameEnd(s, i); VectorName(s, i) == if SevenBit(s, TakeOver(s, i), f) then AtEnd(s, f) else Bad
  {
    StopIsTakeOver(s, i);
    ScanNameIs(s, i, TakeOver(s, i));
  }

  /** The name ends on a byte that no build accepts there. */
  predicate EndsBadly(s: Bytestring, i: nat)
    requires i <= |s|
  {
    var f := NameEnd(s, i); f < |s| && s[f] != COLON
  }

  /** The two builds agree on a header name if and only if the bytes that the blocks pass over are 7-bit, or both reject
      the name: for a byte from 128 up behind the blocks, or for the byte it ends on. */
  lemma {:induction false} NameScansAgree(s: Bytestring, i: nat)
    requires i <= |s|
    ensures var e, f := TakeOver(s, i), NameEnd(s, i);
      VectorName(s, i) == ScanName(s, i) <==> SevenBit(s, i, e) || !SevenBit(s, e, f) || EndsBadly(s, i)
  {
    var e, f := TakeOver(s, i), NameEnd(s, i);
    VectorNameIs(s, i);
    ScanNameIs(s, i, i);
    if !SevenBit(s, i, e) {
      var k :| i <= k < e && s[k] >= 128;
      assert !SevenBit(s, i, f);
    }
  }

  /** Whatever the scalar build accepts, or still waits for, the vectorised build treats alike. */
  lemma {:induction false} VectorNameExtends(s: Bytestring, i: nat)
    requires i <= |s| && ScanName(s, i) != Bad
    ensures VectorName(s, i) == ScanName(s, i)
  {
    NameScansAgree(s, i);
    ScanNameIs(s, i, i);
  }

  // ---- When the vectorised scan is stable under more input ----

  lemma {:induction false} NameEndExtends(s: Bytestring, t: Bytestring, i: nat)
    requires s <= t && i <= |s|
    ensures NameEnd(s, i) <= NameEnd(t, i)
    ensures NameEnd(s, i) < |s| ==> NameEnd(t, i) == NameEnd(s, i)
    decreases |s| - i
  {
    if i < |s| && s[i] != COLON && s[i] >= 32 {
      NameEndExtends(s, t, i + 1);
    }
  }

  lemma BlocksGrow(s: Bytestring, t: Bytestring, i: nat)
    requires s <= t && i <= |s|
    ensures BlockEnd(s, i) <= BlockEnd(t, i)
  {
  }

  /** A verdict of the vectorised scan on `s` that is not "partial" holds for the longer `t`, and a success on `t` lies
      behind a partial `s`, if and only if the bytes that `s` leaves to its byte loop are 7-bit, or `t` is rejected too:
      for a byte from 128 up that its own blocks do not cover, or for the byte the name ends on. */
  lemma {:induction false} VectorNameStableExactly(s: Bytestring, t: Bytestring, i: nat)
    requires s <= t && i <= |s|
    ensures Stable(VectorName(s, i), VectorName(t, i), |s|, 1) <==>
      || SevenBit(s, TakeOver(s, i), NameEnd(s, i))
      || !SevenBit(t, TakeOver(t, i), NameEnd(t, i))
      || EndsBadly(t, i)
  {
    NameEndExtends(s, t, i);
    BlocksGrow(s, t, i);
    VectorNameIs(s, i);
    VectorNameIs(t, i);
    var es, fs, et, ft := TakeOver(s, i), NameEnd(s, i), TakeOver(t, i), NameEnd(t, i);
    if SevenBit(s, es, fs) && fs < |s| {
      forall k | et <= k < ft ensures t[k] < 128 { assert t[k] == s[k]; }
    }
  }

  /** It is not always: a name with a byte from 128 up is rejected while fewer than sixteen bytes are there, and
      accepted once there are sixteen. The scalar scan rejects it then, too: so the builds differ. */
  lemma VectorNameUnstable()
    ensures var name: Bytestring := [65, 200, 65, 65, 65, 65, 65, 65];
      var more: Bytestring := [58, 32, 65, 65, 65, 65, 65, 65];
      VectorName(name, 0) == Bad && VectorName(name + more, 0) == Ok(8, ()) && ScanName(name + more, 0) == Bad
  {
    var name: Bytestring := [65, 200, 65, 65, 65, 65, 65, 65];
    var more: Bytestring := [58, 32, 65, 65, 65, 65, 65, 65];
    NameRejects(name, 0, 1);
    var s := name + more;
    NameRejects(s, 0, 1);
    assert s[8] == COLON;
    assert BlockEnd(s, 0) == 16;
    var stop := NameStop(s, 0, 16);
    assert stop == 8 by {
      assert forall k :: 0 <= k < 8 ==> s[k] == name[k];
    }
  }

  // ---- The parsers of the vectorised build, which differ in that scan only ----

  function VectorParseName(s: Bytestring, i: nat): (r: Result<Slice>)
    requires i < |s|
    ensures r.Ok? ==> i < r.next < |s|
  {
    if !TokenChar(s[i]) then Bad
    else
      var (colon, _) :- VectorName(s, i);
      var (j, _) :- SkipBlanks(s, colon + 1);
      Ok(j, Slice(i, colon - i))
  }

  function VectorParseLine(s: Bytestring, i: nat, first: bool): (r: Result<Header>)
    requires i < |s|
    ensures r.Ok? ==> i < r.next <= |s|
  {
    if !first && Blank(s[i]) then ParseLine(s, i, first)
    else
      var (k, name) :- VectorParseName(s, i);
      var (j, value) :- ScanText(s, k, k);
      Ok(j, Header(Some(name), value))
  }

  function VectorParseHeaders(s: Bytestring, i: nat, num: nat, max: nat): (r: Result<seq<Header>>)
    requires i <= |s|
    ensures r.Ok? ==> i < r.next <= |s|
    decreases |s| - i
  {
    if i == |s| then Partial
    else if s[i] == CR || s[i] == LF then
      var (j, _) :- LineEnd(s, i, i);
      Ok(j, [])
    else if num == max then Bad
    else
      var (j, h) :- VectorParseLine(s, i, num == 0);
      var (n, hs) :- VectorParseHeaders(s, j, num + 1, max);
      Ok(n, [h] + hs)
  }

  function VectorParseRequest(s: Bytestring, max: nat): Result<Request> {
    var (i, _) :- SkipEmptyLine(s, 0);
    var (j, target) :- ParseTarget(s, i);
    var (k, minor) :- ParseVersion(s, j);
    var (l, _) :- LineEnd(s, k, k);
    var (n, headers) :- VectorParseHeaders(s, l, 0, max);
    Ok(n, Request(target.0, target.1, minor, headers))
  }

  function VectorParseResponse(s: Bytestring, max: nat): Result<Response> {
    var (i, status) :- ParseStatus(s, 0);
    var (m, msg) :- ScanText(s, i, i);
    var (n, headers) :- VectorParseHeaders(s, m, 0, max);
    Ok(n, Response(status.0, status.1, msg, headers))
  }

  /** The bytes on which the builds agree about the name that starts at `i`. */
  ghost predicate NameAgrees(s: Bytestring, i: nat)
    requires i <= |s|
  {
    SevenBit(s, i, TakeOver(s, i)) || !SevenBit(s, TakeOver(s, i), NameEnd(s, i)) || EndsBadly(s, i)
  }

  /** The builds agree about every header name that the scalar parse comes to. */
  ghost predicate NamesAgree(s: Bytestring, i: nat, num: nat, max: nat)
    requires i <= |s|
    decreases |s| - i
  {
    i == |s| || s[i] == CR || s[i] == LF || num == max ||
    (NameAgrees(s, i) &&
     var p := ParseLine(s, i, num == 0); p.Ok? ==> NamesAgree(s, p.next, num + 1, max))
  }

  lemma {:induction false} VectorScanAgrees(s: Bytestring, i: nat)
    requires i <= |s| && (ScanName(s, i) != Bad || NameAgrees(s, i))
    ensures VectorName(s, i) == ScanName(s, i)
  {
    NameScansAgree(s, i);
    if ScanName(s, i) != Bad {
      VectorNameExtends(s, i);
    }
  }

  lemma NameScanned(s: Bytestring, i: nat)
    requires i < |s| && VectorName(s, i) == ScanName(s, i)
    ensures VectorParseName(s, i) == ParseName(s, i)
  {
  }

  lemma NoNameBad(s: Bytestring, i: nat)
    requires i < |s| && ScanName(s, i) == Bad
    ensures ParseName(s, i) == Bad
  {
  }

  lemma NameParsed(s: Bytestring, i: nat, first: bool)
    requires i < |s| && VectorParseName(s, i) == ParseName(s, i)
    ensures VectorParseLine(s, i, first) == ParseLine(s, i, first)
  {
  }

  lemma NoLineBad(s: Bytestring, i: nat, first: bool)
    requires i < |s| && ParseName(s, i) == Bad && (first || !Blank(s[i]))
    ensures ParseLine(s, i, first) == Bad
  {
  }

  /** One header line: whatever the scalar build does not reject is the same, and so is everything if the name
      agrees. */
  lemma {:induction false} VectorLineAgrees(s: Bytestring, i: nat, first: bool)
    requires i < |s| && (ParseLine(s, i, first) != Bad || NameAgrees(s, i))
    ensures VectorParseLine(s, i, first) == ParseLine(s, i, first)
  {
    if first || !Blank(s[i]) {
      if ScanName(s, i) == Bad {
        NoNameBad(s, i);
        NoLineBad(s, i, first);
      }
      VectorScanAgrees(s, i);
      NameScanned(s, i);
      NameParsed(s, i, first);
    }
  }

  /** Whatever the scalar build accepts or waits for, the vectorised build parses alike; and if the builds agree about
      the names on the way, it rejects alike, too. */
  lemma {:induction false} VectorHeadersAgree(s: Bytestring, i: nat, num: nat, max: nat)
    requires i <= |s| && (ParseHeaders(s, i, num, max) != Bad || NamesAgree(s, i, num, max))
    ensures VectorParseHeaders(s, i, num, max) == ParseHeaders(s, i, num, max)
    decreases |s| - i
  {
    if i < |s| && s[i] != CR && s[i] != LF && num != max {
      VectorLineAgrees(s, i, num == 0);
      var p := ParseLine(s, i, num == 0);
      if p.Ok? {
        VectorHeadersAgree(s, p.next, num + 1, max);
      }
    }
  }

  /** Where the headers of a request start, if its first line is read. */
  function RequestHeadersAt(s: Bytestring): (r: Result<()>)
    ensures r.Ok? ==> r.next <= |s|
  {
    var (i, _) :- SkipEmptyLine(s, 0);
    var (j, _) :- ParseTarget(s, i);
    var (k, _) :- ParseVersion(s, j);
    var (l, _) :- LineEnd(s, k, k);
    Ok(l, ())
  }

  function ResponseHeadersAt(s: Bytestring): (r: Result<()>)
    ensures r.Ok? ==> r.next <= |s|
  {
    var (i, _) :- ParseStatus(s, 0);
    var (m, _) :- ScanText(s, i, i);
    Ok(m, ())
  }

  /** The whole parse of a request is the same in both builds, unless the scalar build rejects a header name that the
      vectorised build does not. */
  lemma {:induction false} VectorRequestAgrees(s: Bytestring, max: nat)
    requires ParseRequest(s, max) != Bad ||
      (RequestHeadersAt(s).Ok? ==> NamesAgree(s, RequestHeadersAt(s).next, 0, max))
    ensures VectorParseRequest(s, max) == ParseRequest(s, max)
  {
    var at := RequestHeadersAt(s);
    if at.Ok? {
      VectorHeadersAgree(s, at.next, 0, max);
    }
  }

  /** The same for responses. */
  lemma {:induction false} VectorResponseAgrees(s: Bytestring, max: nat)
    requires ParseResponse(s, max) != Bad ||
      (ResponseHeadersAt(s).Ok? ==> NamesAgree(s, ResponseHeadersAt(s).next, 0, max))
    ensures VectorParseResponse(s, max) == ParseResponse(s, max)
  {
    var at := ResponseHeadersAt(s);
    if at.Ok? {
      VectorHeadersAgree(s, at.next, 0, max);
    }
  }

  lemma {:induction false} SevenBitAgrees(s: Bytestring, i: nat, num: nat, max: nat)
    requires i <= |s| && SevenBit(s, i, |s|)
    ensures NamesAgree(s, i, num, max)
    decreases |s| - i
  {
    if i < |s| && s[i] != CR && s[i] != LF && num != max {
      var p := ParseLine(s, i, num == 0);
      if p.Ok? {
        SevenBitAgrees(s, p.next, num + 1, max);
      }
    }
  }

  /** In particular, the builds parse alike every buffer of 7-bit bytes. */
  lemma {:induction false} SevenBitSame(s: Bytestring, max: nat)
    requires SevenBit(s, 0, |s|)
    ensures VectorParseRequest(s, max) == ParseRequest(s, max)
    ensures VectorParseResponse(s, max) == ParseResponse(s, max)
  {
    var r, a := RequestHeadersAt(s), ResponseHeadersAt(s);
    if r.Ok? {
      SevenBitAgrees(s, r.next, 0, max);
    }
    if a.Ok? {
      SevenBitAgrees(s, a.next, 0, max);
    }
    VectorRequestAgrees(s, max);
    VectorResponseAgrees(s, max);
  }
}

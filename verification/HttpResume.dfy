/** The check that lets a caller resume a partial parse (`is_complete` with `last_len`), and why it loses nothing. */
module HttpResume {
  import opened Bytes
  import opened HttpScan
  import opened HttpParse

  /** The loop of `is_complete` with its counter of line ends in a row. */
  function FindBlankLine(s: Bytestring, i: nat, count: nat): (r: Result<()>)
    requires i <= |s| && count < 2
    ensures r.Ok? ==> i < r.next <= |s|
    decreases |s| - i
  {
    if i == |s| then Partial
    else if s[i] == CR || s[i] == LF then
      var (j, _) :- LineEnd(s, i, i);
      if count == 1 then Ok(j, ()) else FindBlankLine(s, j, 1)
    else FindBlankLine(s, i + 1, 0)
  }

  /** It looks again at the last three bytes it saw. */
  function Recheck(lastLen: nat): nat {
    if lastLen < 3 then 0 else lastLen - 3
  }

  /** `is_complete` */
  function IsComplete(s: Bytestring, lastLen: nat): Result<()>
    requires lastLen <= |s|
  {
    FindBlankLine(s, Recheck(lastLen), 0)
  }

  function PhrParseRequest(s: Bytestring, max: nat, lastLen: nat): Result<Request>
    requires lastLen <= |s|
  {
    if lastLen != 0 then
      var _ :- IsComplete(s, lastLen);
      ParseRequest(s, max)
    else ParseRequest(s, max)
  }

  function PhrParseResponse(s: Bytestring, max: nat, lastLen: nat): Result<Response>
    requires lastLen <= |s|
  {
    if lastLen != 0 then
      var _ :- IsComplete(s, lastLen);
      ParseResponse(s, max)
    else ParseResponse(s, max)
  }

  function PhrParseHeaders(s: Bytestring, max: nat, lastLen: nat): Result<seq<Header>>
    requires lastLen <= |s|
  {
    if lastLen != 0 then
      var _ :- IsComplete(s, lastLen);
      ParseHeaders(s, 0, 0, max)
    else ParseHeaders(s, 0, 0, max)
  }

  /** Between `i` and `n` every CR is followed by an LF. */
  ghost predicate Clean(s: Bytestring, i: nat, n: nat)
    requires n <= |s|
  {
    forall k :: i <= k < n && s[k] == CR ==> k + 1 < n && s[k + 1] == LF
  }

  /** A blank line ends at `n`, and the LF before it lies at `lf`: LF LF or LF CR LF. */
  ghost predicate BlankLine(s: Bytestring, lf: nat, n: nat)
    requires n <= |s|
  {
    && lf + 1 < n && s[lf] == LF && s[n - 1] == LF
    && (n == lf + 2 || (n == lf + 3 && s[lf + 1] == CR))
  }

  /** The scan reports completeness if and only if there is a blank line ahead with no stray CR before its end. */
  lemma {:induction false} CompleteExactly(s: Bytestring, i: nat)
    requires i <= |s|
    ensures FindBlankLine(s, i, 0).Ok? <==>
      exists lf, n :: i <= lf < n <= |s| && BlankLine(s, lf, n) && Clean(s, i, n)
  {
    if FindBlankLine(s, i, 0).Ok? {
      var lf := BlankLineFound(s, i, 0);
    }
    forall lf, n | i <= lf < n <= |s| && BlankLine(s, lf, n) && Clean(s, i, n)
      ensures FindBlankLine(s, i, 0).Ok?
    {
      FindsBlankLine(s, i, 0, lf, n);
    }
  }

  lemma {:induction false} BlankLineFound(s: Bytestring, i: nat, count: nat) returns (lf: int)
    requires i <= |s| && count < 2 && (count == 1 ==> i > 0 && s[i - 1] == LF)
    requires FindBlankLine(s, i, count).Ok?
    ensures var n := FindBlankLine(s, i, count).next;
      i - count <= lf && 0 <= lf && BlankLine(s, lf, n) && Clean(s, i, n)
    decreases |s| - i
  {
    if s[i] == CR || s[i] == LF {
      var j := LineEnd(s, i, i).next;
      if count == 1 {
        lf := i - 1;
      } else {
        lf := BlankLineFound(s, j, 1);
      }
    } else {
      lf := BlankLineFound(s, i + 1, 0);
    }
  }

  lemma {:induction false} FindsBlankLine(s: Bytestring, i: nat, count: nat, lf: nat, n: nat)
    requires count < 2 && n <= |s| && BlankLine(s, lf, n) && Clean(s, i, n)
    requires i <= lf || (i == lf + 1 && count == 1)
    ensures FindBlankLine(s, i, count).Ok?
    decreases |s| - i
  {
    if s[i] == CR || s[i] == LF {
      if count == 0 {
        FindsBlankLine(s, LineEnd(s, i, i).next, 1, lf, n);
      }
    } else {
      FindsBlankLine(s, i + 1, 0, lf, n);
    }
  }

  // ---- Parsed bytes hold no stray CR ----

  lemma {:induction false} TextClean(s: Bytestring, start: nat, i: nat)
    requires start <= i <= |s| && ScanText(s, start, i).Ok?
    ensures Clean(s, i, ScanText(s, start, i).next) && s[ScanText(s, start, i).next - 1] == LF
    decreases |s| - i
  {
    if !EndsText(s[i]) {
      TextClean(s, start, i + 1);
    }
  }

  lemma {:induction false} TokenClean(s: Bytestring, start: nat, i: nat)
    requires start <= i <= |s| && ScanToken(s, start, i).Ok?
    ensures Clean(s, i, ScanToken(s, start, i).next)
    decreases |s| - i
  {
    if s[i] != SP {
      TokenClean(s, start, i + 1);
    }
  }

  lemma {:induction false} DigitsClean(s: Bytestring, i: nat, v: nat)
    requires i <= |s| && Digits(s, i, v).Ok?
    ensures Clean(s, i, Digits(s, i, v).next)
    decreases |s| - i
  {
    if Digit(s[i]) {
      DigitsClean(s, i + 1, v * 10 + (s[i] - 48));
    }
  }

  lemma {:induction false} PatternClean(s: Bytestring, i: nat, pattern: Bytestring)
    requires i <= |s| && CR !in pattern && ExpectAll(s, i, pattern).Ok?
    ensures Clean(s, i, i + |pattern|)
    decreases |pattern|
  {
    if pattern != [] {
      PatternClean(s, i + 1, pattern[1..]);
    }
  }

  lemma {:induction false} VersionClean(s: Bytestring, i: nat)
    requires i <= |s| && ParseVersion(s, i).Ok?
    ensures Clean(s, i, ParseVersion(s, i).next)
  {
    PatternClean(s, i, HTTP_1);
    DigitsClean(s, i + 7, 0);
  }

  lemma {:induction false} BlanksClean(s: Bytestring, i: nat)
    requires i <= |s| && SkipBlanks(s, i).Ok?
    ensures Clean(s, i, SkipBlanks(s, i).next)
    decreases |s| - i
  {
    if Blank(s[i]) {
      BlanksClean(s, i + 1);
    }
  }

  lemma {:induction false} NameClean(s: Bytestring, i: nat)
    requires i < |s| && ParseName(s, i).Ok?
    ensures Clean(s, i, ParseName(s, i).next)
  {
    var colon := ScanName(s, i).next;
    NameFound(s, i, colon);
    BlanksClean(s, colon + 1);
    var n := ParseName(s, i).next;
    forall k | i <= k < n && s[k] == CR ensures k + 1 < n && s[k + 1] == LF {
      assert k > colon;
    }
  }

  lemma {:induction false} LineClean(s: Bytestring, i: nat, first: bool)
    requires i < |s| && ParseLine(s, i, first).Ok?
    ensures Clean(s, i, ParseLine(s, i, first).next) && s[ParseLine(s, i, first).next - 1] == LF
  {
    if !first && Blank(s[i]) {
      TextClean(s, i, i);
    } else {
      NameClean(s, i);
      var k := ParseName(s, i).next;
      TextClean(s, k, k);
    }
  }

  /** A header block that parses is clean, and it ends in a blank line if an LF precedes it or it has a header. */
  lemma {:induction false} HeadersClean(s: Bytestring, i: nat, num: nat, max: nat) returns (lf: int)
    requires i <= |s| && ParseHeaders(s, i, num, max).Ok?
    ensures var r := ParseHeaders(s, i, num, max);
      && Clean(s, i, r.next)
      && (r.val != [] || (i > 0 && s[i - 1] == LF) ==> 0 <= lf && BlankLine(s, lf, r.next))
      && (r.val == [] ==> (s[i] == LF && r.next == i + 1) || (s[i] == CR && r.next == i + 2))
    decreases |s| - i
  {
    if s[i] == CR || s[i] == LF {
      lf := i - 1;
    } else {
      LineClean(s, i, num == 0);
      var p := ParseLine(s, i, num == 0);
      lf := HeadersClean(s, p.next, num + 1, max);
    }
  }

  lemma CleanJoin(s: Bytestring, i: nat, j: nat, n: nat)
    requires i <= j <= n <= |s| && Clean(s, i, j) && Clean(s, j, n)
    ensures Clean(s, i, n)
  {
  }

  lemma LineEndClean(s: Bytestring, start: nat, i: nat)
    requires start <= i < |s| && LineEnd(s, start, i).Ok?
    ensures var n := LineEnd(s, start, i).next; Clean(s, i, n) && s[n - 1] == LF
  {
  }

  lemma {:induction false} TargetClean(s: Bytestring, i: nat)
    requires i <= |s| && ParseTarget(s, i).Ok?
    ensures Clean(s, i, ParseTarget(s, i).next)
  {
    TokenClean(s, i, i);
    var j := ScanToken(s, i, i).next;
    TokenClean(s, j + 1, j + 1);
    var k := ScanToken(s, j + 1, j + 1).next;
    CleanJoin(s, i, j, j + 1);
    CleanJoin(s, i, j + 1, k);
    CleanJoin(s, i, k, k + 1);
  }

  lemma {:induction false} RequestTailClean(s: Bytestring, i: nat, max: nat) returns (lf: int)
    requires i <= |s| && ParseRequestTail(s, i, max).Ok?
    ensures var n := ParseRequestTail(s, i, max).next; Clean(s, i, n) && 0 <= lf && BlankLine(s, lf, n)
  {
    VersionClean(s, i);
    var j := ParseVersion(s, i).next;
    LineEndClean(s, j, j);
    var k := LineEnd(s, j, j).next;
    CleanJoin(s, i, j, k);
    lf := HeadersClean(s, k, 0, max);
    CleanJoin(s, i, k, ParseHeaders(s, k, 0, max).next);
  }

  lemma {:induction false} RequestClean(s: Bytestring, max: nat) returns (lf: int)
    requires ParseRequest(s, max).Ok?
    ensures var n := ParseRequest(s, max).next; Clean(s, 0, n) && 0 <= lf && BlankLine(s, lf, n)
  {
    var i := SkipEmptyLine(s, 0).next;
    TargetClean(s, i);
    var j := ParseTarget(s, i).next;
    lf := RequestTailClean(s, j, max);
    CleanJoin(s, 0, i, j);
    CleanJoin(s, 0, j, ParseRequestTail(s, j, max).next);
  }

  lemma {:induction false} VersionSpaceClean(s: Bytestring, i: nat)
    requires i <= |s| && VersionSpace(s, i).Ok?
    ensures Clean(s, i, VersionSpace(s, i).next)
  {
    VersionClean(s, i);
    var j := ParseVersion(s, i).next;
    CleanJoin(s, i, j, j + 1);
  }

  lemma {:induction false} StatusSpaceClean(s: Bytestring, i: nat)
    requires i <= |s| && StatusSpace(s, i).Ok?
    ensures Clean(s, i, StatusSpace(s, i).next)
  {
    DigitsClean(s, i, 0);
    var j := ParseInt(s, i).next;
    CleanJoin(s, i, j, j + 1);
  }

  lemma {:induction false} StatusClean(s: Bytestring)
    requires ParseStatus(s, 0).Ok?
    ensures Clean(s, 0, ParseStatus(s, 0).next)
  {
    VersionSpaceClean(s, 0);
    var i := VersionSpace(s, 0).next;
    StatusSpaceClean(s, i);
    CleanJoin(s, 0, i, StatusSpace(s, i).next);
  }

  lemma {:induction false} ResponseTailClean(s: Bytestring, i: nat, max: nat) returns (lf: int)
    requires i <= |s| && ParseResponseTail(s, i, max).Ok?
    ensures var n := ParseResponseTail(s, i, max).next; Clean(s, i, n) && 0 <= lf && BlankLine(s, lf, n)
  {
    TextClean(s, i, i);
    var j := ScanText(s, i, i).next;
    lf := HeadersClean(s, j, 0, max);
    CleanJoin(s, i, j, ParseHeaders(s, j, 0, max).next);
  }

  lemma {:induction false} ResponseClean(s: Bytestring, max: nat) returns (lf: int)
    requires ParseResponse(s, max).Ok?
    ensures var n := ParseResponse(s, max).next; Clean(s, 0, n) && 0 <= lf && BlankLine(s, lf, n)
  {
    StatusClean(s);
    var i := ParseStatus(s, 0).next;
    lf := ResponseTailClean(s, i, max);
    CleanJoin(s, 0, i, ParseResponseTail(s, i, max).next);
  }

  // ---- Resuming loses nothing ----

  /** What the check needs: a clean prefix of length `n` that ends in a blank line, and fewer than `n` bytes seen. */
  lemma {:induction false} CheckPasses(s: Bytestring, lastLen: nat, lf: nat, n: nat)
    requires lastLen < n <= |s| && Clean(s, 0, n) && BlankLine(s, lf, n)
    ensures IsComplete(s, lastLen).Ok?
  {
    FindsBlankLine(s, Recheck(lastLen), 0, lf, n);
  }

  /** If the first `lastLen` bytes were partial and the whole buffer is a request, the resumed parse finds it. */
  lemma {:induction false} ResumeRequest(s: Bytestring, max: nat, lastLen: nat)
    requires lastLen <= |s| && ParseRequest(s[..lastLen], max) == Partial && ParseRequest(s, max).Ok?
    ensures PhrParseRequest(s, max, lastLen) == ParseRequest(s, max)
  {
    RequestStable(s[..lastLen], s, max);
    var lf := RequestClean(s, max);
    CheckPasses(s, lastLen, lf, ParseRequest(s, max).next);
  }

  /** The same for responses. */
  lemma {:induction false} ResumeResponse(s: Bytestring, max: nat, lastLen: nat)
    requires lastLen <= |s| && ParseResponse(s[..lastLen], max) == Partial && ParseResponse(s, max).Ok?
    ensures PhrParseResponse(s, max, lastLen) == ParseResponse(s, max)
  {
    ResponseStable(s[..lastLen], s, max);
    var lf := ResponseClean(s, max);
    CheckPasses(s, lastLen, lf, ParseResponse(s, max).next);
  }

  /** A bare header block may be one empty line, which is no blank line by itself. A resumed parse finds the block if
      and only if it does not start with a CR, or there is a blank line further on with no stray CR before its end. */
  lemma {:induction false} ResumeHeadersExactly(s: Bytestring, max: nat, lastLen: nat)
    requires 0 < lastLen <= |s|
    requires ParseHeaders(s[..lastLen], 0, 0, max) == Partial && ParseHeaders(s, 0, 0, max).Ok?
    ensures PhrParseHeaders(s, max, lastLen) == ParseHeaders(s, 0, 0, max) <==>
      s[0] != CR || exists lf, n :: 0 <= lf < n <= |s| && BlankLine(s, lf, n) && Clean(s, 0, n)
  {
    HeadersStable(s[..lastLen], s, 0, 0, max);
    var r := ParseHeaders(s, 0, 0, max);
    var lf := HeadersClean(s, 0, 0, max);
    if s[0] == CR {
      assert r.next == 2 && lastLen == 1;
      CompleteExactly(s, 0);
    } else {
      assert s[..lastLen][0] == s[0];
      CheckPasses(s, lastLen, lf, r.next);
    }
  }

  /** The case where resuming fails: an empty header block that arrived as CR, then LF. */
  lemma ResumeEmptyHeadersFails()
    ensures var s: Bytestring := [CR, LF];
      && ParseHeaders(s[..1], 0, 0, 0) == Partial
      && ParseHeaders(s, 0, 0, 0) == Ok(2, [])
      && PhrParseHeaders(s, 0, 1) == Partial
  {
    var s: Bytestring := [CR, LF];
    assert FindBlankLine(s, 2, 1) == Partial;
  }

  // ---- A buffer that ends in a blank line is never partial ----

  /** `s` ends in a blank line, and the LF before that lies at `lf`. */
  ghost predicate EndsBlank(s: Bytestring, lf: nat) {
    BlankLine(s, lf, |s|)
  }

  lemma {:induction false} TextEnds(s: Bytestring, start: nat, i: nat, lf: nat)
    requires EndsBlank(s, lf) && start <= i <= lf
    ensures var r := ScanText(s, start, i); r != Partial && (r.Ok? ==> r.next <= lf + 1)
    decreases |s| - i
  {
    if !EndsText(s[i]) {
      TextEnds(s, start, i + 1, lf);
    }
  }

  lemma {:induction false} TokenEnds(s: Bytestring, start: nat, i: nat, lf: nat)
    requires EndsBlank(s, lf) && start <= i <= lf + 1
    ensures var r := ScanToken(s, start, i); r != Partial && (r.Ok? ==> r.next < lf)
    decreases |s| - i
  {
    if i < lf && s[i] > 32 && s[i] != DEL {
      TokenEnds(s, start, i + 1, lf);
    }
  }

  lemma {:induction false} DigitsEnd(s: Bytestring, i: nat, v: nat, lf: nat)
    requires EndsBlank(s, lf) && i <= lf
    ensures var r := Digits(s, i, v); r.Ok? && r.next <= lf
    decreases |s| - i
  {
    if Digit(s[i]) {
      DigitsEnd(s, i + 1, v * 10 + (s[i] - 48), lf);
    }
  }

  lemma {:induction false} PatternEnds(s: Bytestring, i: nat, pattern: Bytestring, lf: nat)
    requires EndsBlank(s, lf) && i <= lf && LF !in pattern
    ensures var r := ExpectAll(s, i, pattern); r != Partial && (r.Ok? ==> r.next <= lf)
    decreases |pattern|
  {
    if pattern != [] && s[i] == pattern[0] {
      assert pattern[0] in pattern;
      PatternEnds(s, i + 1, pattern[1..], lf);
    }
  }

  lemma {:induction false} BlanksEnd(s: Bytestring, i: nat, lf: nat)
    requires EndsBlank(s, lf) && i <= lf
    ensures var r := SkipBlanks(s, i); r.Ok? && r.next <= lf
    decreases |s| - i
  {
    if Blank(s[i]) {
      BlanksEnd(s, i + 1, lf);
    }
  }

  lemma {:induction false} NameEnds(s: Bytestring, i: nat, lf: nat)
    requires EndsBlank(s, lf) && i <= lf
    ensures var r := ScanName(s, i); r != Partial && (r.Ok? ==> r.next < lf)
    decreases |s| - i
  {
    if s[i] != COLON && Signed(s[i]) >= 32 {
      NameEnds(s, i + 1, lf);
    }
  }

  lemma {:induction false} ParseNameEnds(s: Bytestring, i: nat, lf: nat)
    requires EndsBlank(s, lf) && i <= lf
    ensures var r := ParseName(s, i); r != Partial && (r.Ok? ==> r.next <= lf)
  {
    NameEnds(s, i, lf);
    var n := ScanName(s, i);
    if n.Ok? {
      BlanksEnd(s, n.next + 1, lf);
    }
  }

  lemma {:induction false} LineEnds(s: Bytestring, i: nat, first: bool, lf: nat)
    requires EndsBlank(s, lf) && i <= lf
    ensures var r := ParseLine(s, i, first); r != Partial && (r.Ok? ==> r.next <= lf + 1)
  {
    TextEnds(s, i, i, lf);
    ParseNameEnds(s, i, lf);
    var n := ParseName(s, i);
    if n.Ok? {
      TextEnds(s, n.next, n.next, lf);
    }
  }

  lemma {:induction false} HeadersEnd(s: Bytestring, i: nat, num: nat, max: nat, lf: nat)
    requires EndsBlank(s, lf) && i <= lf + 1
    ensures ParseHeaders(s, i, num, max) != Partial
    decreases |s| - i
  {
    if s[i] != CR && s[i] != LF {
      LineEnds(s, i, num == 0, lf);
      var p := ParseLine(s, i, num == 0);
      if p.Ok? && num != max {
        HeadersEnd(s, p.next, num + 1, max, lf);
      }
    }
  }

  lemma {:induction false} IntEnds(s: Bytestring, i: nat, lf: nat)
    requires EndsBlank(s, lf) && i <= lf
    ensures var r := ParseInt(s, i); r != Partial && (r.Ok? ==> r.next <= lf)
  {
    DigitsEnd(s, i, 0, lf);
  }

  lemma {:induction false} VersionEnds(s: Bytestring, i: nat, lf: nat)
    requires EndsBlank(s, lf) && i <= lf
    ensures var r := ParseVersion(s, i); r != Partial && (r.Ok? ==> r.next <= lf)
  {
    PatternEnds(s, i, HTTP_1, lf);
    var a := ExpectAll(s, i, HTTP_1);
    if a.Ok? {
      IntEnds(s, a.next, lf);
    }
  }

  lemma {:induction false} StatusEnds(s: Bytestring, lf: nat)
    requires EndsBlank(s, lf)
    ensures var r := ParseStatus(s, 0); r != Partial && (r.Ok? ==> r.next <= lf)
  {
    VersionEnds(s, 0, lf);
    var a := ParseVersion(s, 0);
    if a.Ok? && s[a.next] == SP {
      IntEnds(s, a.next + 1, lf);
    }
  }

  lemma {:induction false} ResponseEnds(s: Bytestring, max: nat, lf: nat)
    requires EndsBlank(s, lf)
    ensures ParseResponse(s, max) != Partial
  {
    StatusEnds(s, lf);
    var a := ParseStatus(s, 0);
    if a.Ok? {
      TextEnds(s, a.next, a.next, lf);
      var b := ScanText(s, a.next, a.next);
      if b.Ok? {
        HeadersEnd(s, b.next, 0, max, lf);
      }
    }
  }

  lemma {:induction false} TargetEnds(s: Bytestring, i: nat, lf: nat)
    requires EndsBlank(s, lf) && i <= lf + 1
    ensures var r := ParseTarget(s, i); r != Partial && (r.Ok? ==> r.next <= lf)
  {
    TokenEnds(s, i, i, lf);
    var a := ScanToken(s, i, i);
    if a.Ok? {
      TokenEnds(s, a.next + 1, a.next + 1, lf);
    }
  }

  lemma {:induction false} RequestTailEnds(s: Bytestring, i: nat, max: nat, lf: nat)
    requires EndsBlank(s, lf) && i <= lf
    ensures ParseRequestTail(s, i, max) != Partial
  {
    VersionEnds(s, i, lf);
    var v := ParseVersion(s, i);
    if v.Ok? {
      var e := LineEnd(s, v.next, v.next);
      if e.Ok? {
        HeadersEnd(s, e.next, 0, max, lf);
      }
    }
  }

  lemma {:induction false} RequestEnds(s: Bytestring, max: nat, lf: nat)
    requires EndsBlank(s, lf)
    ensures ParseRequest(s, max) != Partial
  {
    var a := SkipEmptyLine(s, 0);
    if a.Ok? {
      TargetEnds(s, a.next, lf);
      var t := ParseTarget(s, a.next);
      if t.Ok? {
        RequestTailEnds(s, t.next, max, lf);
      }
    }
  }

  /** `ReadAnswer` parses exactly the bytes up to and including the first CR LF CR LF, and goes on if the parse returns
      -2. It never does: such a head either parses or is rejected. */
  lemma {:induction false} AnswerHeadDecided(s: Bytestring, max: nat, e: nat)
    requires |s| == e + 4 && s[e] == CR && s[e + 1] == LF && s[e + 2] == CR && s[e + 3] == LF
    ensures ParseResponse(s, max) != Partial
  {
    ResponseEnds(s, max, e + 1);
  }
}

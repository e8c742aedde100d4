/** What a partial parse says about its buffer, and the full verdict of a resumed parse: when it is the verdict of the
    parse from the start, and when a buffer that the latter rejects still looks partial. */
module HttpWait {
  import opened Bytes
  import opened HttpScan
  import opened HttpParse
  import opened HttpResume

  /** From `i` on every CR is followed by an LF, or is the last byte there is. */
  ghost predicate Unbroken(s: Bytestring, i: nat) {
    forall k :: i <= k && k + 1 < |s| && s[k] == CR ==> s[k + 1] == LF
  }

  lemma UnbrokenBehind(s: Bytestring, i: nat, j: nat)
    requires i <= j <= |s| && Clean(s, i, j) && Unbroken(s, j)
    ensures Unbroken(s, i)
  {
  }

  // ---- A parse that waits for more has met no stray CR ----

  lemma {:induction false} TextWaits(s: Bytestring, start: nat, i: nat)
    requires start <= i <= |s| && ScanText(s, start, i) == Partial
    ensures Unbroken(s, i)
    decreases |s| - i
  {
    if i < |s| && !EndsText(s[i]) {
      TextWaits(s, start, i + 1);
    }
  }

  lemma {:induction false} TokenWaits(s: Bytestring, start: nat, i: nat)
    requires start <= i <= |s| && ScanToken(s, start, i) == Partial
    ensures Unbroken(s, i)
    decreases |s| - i
  {
    if i < |s| {
      TokenWaits(s, start, i + 1);
    }
  }

  lemma {:induction false} NameWaits(s: Bytestring, i: nat)
    requires i <= |s| && ScanName(s, i) == Partial
    ensures Unbroken(s, i)
    decreases |s| - i
  {
    if i < |s| {
      NameWaits(s, i + 1);
    }
  }

  lemma {:induction false} BlanksWait(s: Bytestring, i: nat)
    requires i <= |s| && SkipBlanks(s, i) == Partial
    ensures Unbroken(s, i)
    decreases |s| - i
  {
    if i < |s| {
      BlanksWait(s, i + 1);
    }
  }

  lemma {:induction false} DigitsWait(s: Bytestring, i: nat, v: nat)
    requires i <= |s| && Digits(s, i, v) == Partial
    ensures Unbroken(s, i)
    decreases |s| - i
  {
    if i < |s| {
      DigitsWait(s, i + 1, v * 10 + (s[i] - 48));
    }
  }

  lemma {:induction false} PatternWaits(s: Bytestring, i: nat, pattern: Bytestring)
    requires i <= |s| && CR !in pattern && ExpectAll(s, i, pattern) == Partial
    ensures Unbroken(s, i)
    decreases |pattern|
  {
    if i < |s| {
      assert s[i] == pattern[0] && pattern[0] in pattern;
      PatternWaits(s, i + 1, pattern[1..]);
    }
  }

  lemma {:induction false} IntWaits(s: Bytestring, i: nat)
    requires i <= |s| && ParseInt(s, i) == Partial
    ensures Unbroken(s, i)
  {
    if i < |s| {
      DigitsWait(s, i, 0);
    }
  }

  lemma {:induction false} VersionWaits(s: Bytestring, i: nat)
    requires i <= |s| && ParseVersion(s, i) == Partial
    ensures Unbroken(s, i)
  {
    var p := ExpectAll(s, i, HTTP_1);
    if p.Ok? {
      PatternClean(s, i, HTTP_1);
      IntWaits(s, p.next);
      UnbrokenBehind(s, i, p.next);
    } else {
      PatternWaits(s, i, HTTP_1);
    }
  }

  lemma {:induction false} LineEndWaits(s: Bytestring, start: nat, i: nat)
    requires start <= i < |s| && LineEnd(s, start, i) == Partial
    ensures Unbroken(s, i)
  {
  }

  lemma {:induction false} NameScanned(s: Bytestring, i: nat)
    requires i <= |s| && ScanName(s, i).Ok?
    ensures Clean(s, i, ScanName(s, i).next + 1)
  {
    NameFound(s, i, ScanName(s, i).next);
  }

  lemma {:induction false} ParseNameWaits(s: Bytestring, i: nat)
    requires i < |s| && ParseName(s, i) == Partial
    ensures Unbroken(s, i)
  {
    var n := ScanName(s, i);
    if n.Ok? {
      NameScanned(s, i);
      BlanksWait(s, n.next + 1);
      UnbrokenBehind(s, i, n.next + 1);
    } else {
      NameWaits(s, i);
    }
  }

  lemma {:induction false} LineWaits(s: Bytestring, i: nat, first: bool)
    requires i < |s| && ParseLine(s, i, first) == Partial
    ensures Unbroken(s, i)
  {
    if !first && Blank(s[i]) {
      TextWaits(s, i, i);
    } else if ParseName(s, i).Ok? {
      var k := ParseName(s, i).next;
      NameClean(s, i);
      TextWaits(s, k, k);
      UnbrokenBehind(s, i, k);
    } else {
      ParseNameWaits(s, i);
    }
  }

  lemma {:induction false} HeadersWait(s: Bytestring, i: nat, num: nat, max: nat)
    requires i <= |s| && ParseHeaders(s, i, num, max) == Partial
    ensures Unbroken(s, i)
    decreases |s| - i
  {
    if i == |s| {
    } else if s[i] == CR || s[i] == LF {
      LineEndWaits(s, i, i);
    } else {
      var p := ParseLine(s, i, num == 0);
      if p.Ok? {
        LineClean(s, i, num == 0);
        HeadersWait(s, p.next, num + 1, max);
        UnbrokenBehind(s, i, p.next);
      } else {
        LineWaits(s, i, num == 0);
      }
    }
  }

  lemma {:induction false} TargetWaits(s: Bytestring, i: nat)
    requires i <= |s| && ParseTarget(s, i) == Partial
    ensures Unbroken(s, i)
  {
    var a := ScanToken(s, i, i);
    if a.Ok? {
      TokenClean(s, i, i);
      TokenWaits(s, a.next + 1, a.next + 1);
      UnbrokenBehind(s, a.next, a.next + 1);
      UnbrokenBehind(s, i, a.next);
    } else {
      TokenWaits(s, i, i);
    }
  }

  lemma {:induction false} RequestTailWaits(s: Bytestring, i: nat, max: nat)
    requires i <= |s| && ParseRequestTail(s, i, max) == Partial
    ensures Unbroken(s, i)
  {
    var a := ParseVersion(s, i);
    if a.Ok? {
      VersionClean(s, i);
      VersionEndWaits(s, a.next, max);
      UnbrokenBehind(s, i, a.next);
    } else {
      VersionWaits(s, i);
    }
  }

  lemma {:induction false} VersionEndWaits(s: Bytestring, j: nat, max: nat)
    requires j < |s|
    requires LineEnd(s, j, j) == Partial ||
      (LineEnd(s, j, j).Ok? && ParseHeaders(s, LineEnd(s, j, j).next, 0, max) == Partial)
    ensures Unbroken(s, j)
  {
    var e := LineEnd(s, j, j);
    if e.Ok? {
      LineEndClean(s, j, j);
      HeadersWait(s, e.next, 0, max);
      UnbrokenBehind(s, j, e.next);
    } else {
      LineEndWaits(s, j, j);
    }
  }

  lemma {:induction false} RequestUnbroken(s: Bytestring, max: nat)
    requires ParseRequest(s, max) == Partial
    ensures Unbroken(s, 0)
  {
    var a := SkipEmptyLine(s, 0);
    if a.Ok? {
      var t := ParseTarget(s, a.next);
      if t.Ok? {
        TargetClean(s, a.next);
        RequestTailWaits(s, t.next, max);
        UnbrokenBehind(s, a.next, t.next);
      } else {
        TargetWaits(s, a.next);
      }
      UnbrokenBehind(s, 0, a.next);
    }
  }

  lemma {:induction false} StatusWaits(s: Bytestring)
    requires ParseStatus(s, 0) == Partial
    ensures Unbroken(s, 0)
  {
    var a := ParseVersion(s, 0);
    if a.Ok? {
      VersionSpaceClean(s, 0);
      IntWaits(s, a.next + 1);
      UnbrokenBehind(s, 0, a.next + 1);
    } else {
      VersionWaits(s, 0);
    }
  }

  lemma {:induction false} ResponseTailWaits(s: Bytestring, i: nat, max: nat)
    requires i <= |s| && ParseResponseTail(s, i, max) == Partial
    ensures Unbroken(s, i)
  {
    var m := ScanText(s, i, i);
    if m.Ok? {
      TextClean(s, i, i);
      HeadersWait(s, m.next, 0, max);
      UnbrokenBehind(s, i, m.next);
    } else {
      TextWaits(s, i, i);
    }
  }

  lemma {:induction false} ResponseUnbroken(s: Bytestring, max: nat)
    requires ParseResponse(s, max) == Partial
    ensures Unbroken(s, 0)
  {
    var a := ParseStatus(s, 0);
    if a.Ok? {
      StatusClean(s);
      ResponseTailWaits(s, a.next, max);
      UnbrokenBehind(s, 0, a.next);
    } else {
      StatusWaits(s);
    }
  }

  // ---- The check, said without a scan ----

  /** From `i` on there is neither a stray CR nor a blank line. */
  ghost predicate Waiting(s: Bytestring, i: nat) {
    Unbroken(s, i) && forall lf, n :: i <= lf < n <= |s| ==> !BlankLine(s, lf, n)
  }

  lemma {:induction false} WaitsUnbroken(s: Bytestring, i: nat, count: nat)
    requires i <= |s| && count < 2 && FindBlankLine(s, i, count) == Partial
    ensures Unbroken(s, i)
    decreases |s| - i
  {
    if i < |s| {
      if s[i] == CR || s[i] == LF {
        var e := LineEnd(s, i, i);
        if e.Ok? {
          WaitsUnbroken(s, e.next, 1);
        }
      } else {
        WaitsUnbroken(s, i + 1, 0);
      }
    }
  }

  lemma {:induction false} NotRejected(s: Bytestring, i: nat, count: nat)
    requires i <= |s| && count < 2 && Unbroken(s, i)
    ensures FindBlankLine(s, i, count) != Bad
    decreases |s| - i
  {
    if i < |s| {
      if s[i] == CR || s[i] == LF {
        var e := LineEnd(s, i, i);
        if e.Ok? && count == 0 {
          NotRejected(s, e.next, 1);
        }
      } else {
        NotRejected(s, i + 1, 0);
      }
    }
  }

  lemma UnbrokenClean(s: Bytestring, i: nat, n: nat)
    requires 0 < n <= |s| && s[n - 1] == LF && Unbroken(s, i)
    ensures Clean(s, i, n)
  {
  }

  /** The check waits if and only if there is neither a stray CR nor a blank line ahead. */
  lemma {:induction false} WaitsExactly(s: Bytestring, i: nat)
    requires i <= |s|
    ensures FindBlankLine(s, i, 0) == Partial <==> Waiting(s, i)
  {
    if FindBlankLine(s, i, 0) == Partial {
      WaitsUnbroken(s, i, 0);
      forall lf, n | i <= lf < n <= |s| ensures !BlankLine(s, lf, n) {
        if BlankLine(s, lf, n) {
          UnbrokenClean(s, i, n);
          CompleteExactly(s, i);
        }
      }
    }
    if Waiting(s, i) {
      NotRejected(s, i, 0);
      CompleteExactly(s, i);
    }
  }

  /** A CR at `k` that something other than an LF follows. */
  predicate StrayCr(s: Bytestring, k: nat) {
    k + 1 < |s| && s[k] == CR && s[k + 1] != LF
  }

  lemma {:induction false} FirstStray(s: Bytestring, i: nat, count: nat) returns (k: nat)
    requires i <= |s| && count < 2 && FindBlankLine(s, i, count) == Bad
    ensures i <= k && StrayCr(s, k) && forall j :: i <= j < k ==> !StrayCr(s, j)
    decreases |s| - i
  {
    if s[i] == CR || s[i] == LF {
      var e := LineEnd(s, i, i);
      k := i;
      if e.Ok? {
        k := FirstStray(s, e.next, 1);
      }
    } else {
      k := FirstStray(s, i + 1, 0);
    }
  }

  /** The check rejects if and only if there is a stray CR ahead with no blank line before it. */
  lemma {:induction false} RejectsExactly(s: Bytestring, i: nat)
    requires i <= |s|
    ensures FindBlankLine(s, i, 0) == Bad <==>
      exists k :: i <= k && StrayCr(s, k) && forall lf, n :: i <= lf < n <= k ==> !BlankLine(s, lf, n)
  {
    CompleteExactly(s, i);
    WaitsExactly(s, i);
    if FindBlankLine(s, i, 0) == Bad {
      var k := FirstStray(s, i, 0);
      forall lf, n | i <= lf < n <= k ensures !BlankLine(s, lf, n) {
        if BlankLine(s, lf, n) {
          forall j | i <= j < n && s[j] == CR ensures j + 1 < n && s[j + 1] == LF { assert !StrayCr(s, j); }
          assert Clean(s, i, n);
        }
      }
    }
  }

  // ---- A partial buffer holds neither a stray CR nor a blank line ----

  lemma {:induction false} RequestWaits(s: Bytestring, max: nat)
    requires ParseRequest(s, max) == Partial
    ensures Waiting(s, 0)
  {
    RequestUnbroken(s, max);
    forall lf, n | 0 <= lf < n <= |s| ensures !BlankLine(s, lf, n) {
      if BlankLine(s, lf, n) {
        assert EndsBlank(s[..n], lf);
        RequestEnds(s[..n], max, lf);
        RequestStable(s[..n], s, max);
      }
    }
  }

  lemma {:induction false} ResponseWaits(s: Bytestring, max: nat)
    requires ParseResponse(s, max) == Partial
    ensures Waiting(s, 0)
  {
    ResponseUnbroken(s, max);
    forall lf, n | 0 <= lf < n <= |s| ensures !BlankLine(s, lf, n) {
      if BlankLine(s, lf, n) {
        assert EndsBlank(s[..n], lf);
        ResponseEnds(s[..n], max, lf);
        ResponseStable(s[..n], s, max);
      }
    }
  }

  lemma {:induction false} BlockWaits(s: Bytestring, max: nat)
    requires ParseHeaders(s, 0, 0, max) == Partial
    ensures Waiting(s, 0)
  {
    HeadersWait(s, 0, 0, max);
    forall lf, n | 0 <= lf < n <= |s| ensures !BlankLine(s, lf, n) {
      if BlankLine(s, lf, n) {
        assert EndsBlank(s[..n], lf);
        HeadersEnd(s[..n], 0, 0, max, lf);
        HeadersStable(s[..n], s, 0, 0, max);
      }
    }
  }

  /** The check at the start of a resumed parse waits on a buffer that is partial. */
  lemma {:induction false} CheckWaits(s: Bytestring, lastLen: nat)
    requires lastLen <= |s| && Waiting(s, 0)
    ensures Waiting(s, Recheck(lastLen)) && IsComplete(s, lastLen) == Partial
  {
    WaitsExactly(s, Recheck(lastLen));
  }

  // ---- The verdict of a resumed parse ----

  /** If the first `lastLen` bytes were no request yet, the resumed parse says what the parse from the start says, if
      and only if that is not a rejection, or there is a stray CR or a blank line in what the check looks at. If not, it
      waits. */
  lemma {:induction false} ResumedRequest(s: Bytestring, max: nat, lastLen: nat)
    requires lastLen <= |s| && !ParseRequest(s[..lastLen], max).Ok?
    ensures var resumed, whole := PhrParseRequest(s, max, lastLen), ParseRequest(s, max);
      && (resumed == whole <==> whole != Bad || lastLen == 0 || !Waiting(s, Recheck(lastLen)))
      && (resumed != whole ==> resumed == Partial)
  {
    var whole := ParseRequest(s, max);
    RequestStable(s[..lastLen], s, max);
    WaitsExactly(s, Recheck(lastLen));
    if whole.Ok? {
      ResumeRequest(s, max, lastLen);
    } else if whole == Partial {
      RequestWaits(s, max);
      CheckWaits(s, lastLen);
    }
  }

  /** The same for responses. */
  lemma {:induction false} ResumedResponse(s: Bytestring, max: nat, lastLen: nat)
    requires lastLen <= |s| && !ParseResponse(s[..lastLen], max).Ok?
    ensures var resumed, whole := PhrParseResponse(s, max, lastLen), ParseResponse(s, max);
      && (resumed == whole <==> whole != Bad || lastLen == 0 || !Waiting(s, Recheck(lastLen)))
      && (resumed != whole ==> resumed == Partial)
  {
    var whole := ParseResponse(s, max);
    ResponseStable(s[..lastLen], s, max);
    WaitsExactly(s, Recheck(lastLen));
    if whole.Ok? {
      ResumeResponse(s, max, lastLen);
    } else if whole == Partial {
      ResponseWaits(s, max);
      CheckWaits(s, lastLen);
    }
  }

  /** From `i` on there is a blank line with no stray CR before its end. */
  ghost predicate BlankAhead(s: Bytestring, i: nat) {
    exists lf, n :: i <= lf < n <= |s| && BlankLine(s, lf, n) && Clean(s, i, n)
  }

  /** The same for header blocks, with one more exception: a block that starts with a CR, hence an empty one, is found
      only if a blank line follows further on. */
  lemma {:induction false} ResumedHeaders(s: Bytestring, max: nat, lastLen: nat)
    requires lastLen <= |s| && !ParseHeaders(s[..lastLen], 0, 0, max).Ok?
    ensures var resumed, whole := PhrParseHeaders(s, max, lastLen), ParseHeaders(s, 0, 0, max);
      && (whole == Bad && resumed != whole ==> resumed == Partial)
      && (resumed == whole <==>
          match whole
          case Partial => true
          case Bad => lastLen == 0 || !Waiting(s, Recheck(lastLen))
          case Ok(_, _) => lastLen == 0 || s[0] != CR || BlankAhead(s, 0))
  {
    var whole := ParseHeaders(s, 0, 0, max);
    HeadersStable(s[..lastLen], s, 0, 0, max);
    WaitsExactly(s, Recheck(lastLen));
    if whole.Ok? && lastLen > 0 {
      ResumeHeadersExactly(s, max, lastLen);
    } else if whole == Partial {
      BlockWaits(s, max);
      CheckWaits(s, lastLen);
    }
  }

  /** The case where the verdicts differ: a request line that is bad, but has no blank line yet. */
  lemma BadRequestLooksPartial()
    ensures var s: Bytestring := [71, 1];
      ParseRequest(s[..1], 0) == Partial && ParseRequest(s, 0) == Bad && PhrParseRequest(s, 0, 1) == Partial
  {
    var s: Bytestring := [71, 1];
    assert ScanToken(s, 0, 1) == Bad;
    assert ScanToken(s[..1], 0, 1) == Partial;
    assert FindBlankLine(s, 2, 0) == Partial;
    assert FindBlankLine(s, 1, 0) == Partial;
  }

  // ---- A whole conversation ----

  /** The buffer is looked at when it is `cuts[0]`, `cuts[1]`, ... bytes long, and at last in full. */
  predicate Growing(s: Bytestring, seen: nat, cuts: seq<nat>)
    decreases |cuts|
  {
    if cuts == [] then seen == |s|
    else seen <= cuts[0] <= |s| && Growing(s, cuts[0], cuts[1..])
  }

  /** What a caller gets who parses the growing buffer, resuming each time, until there is a verdict. */
  function FeedRequest(s: Bytestring, max: nat, seen: nat, cuts: seq<nat>): Result<Request>
    requires Growing(s, seen, cuts)
    decreases |cuts|
  {
    if cuts == [] then Partial
    else
      var r := PhrParseRequest(s[..cuts[0]], max, seen);
      if r == Partial then FeedRequest(s, max, cuts[0], cuts[1..]) else r
  }

  function FeedResponse(s: Bytestring, max: nat, seen: nat, cuts: seq<nat>): Result<Response>
    requires Growing(s, seen, cuts)
    decreases |cuts|
  {
    if cuts == [] then Partial
    else
      var r := PhrParseResponse(s[..cuts[0]], max, seen);
      if r == Partial then FeedResponse(s, max, cuts[0], cuts[1..]) else r
  }

  function FeedHeaders(s: Bytestring, max: nat, seen: nat, cuts: seq<nat>): Result<seq<Header>>
    requires Growing(s, seen, cuts)
    decreases |cuts|
  {
    if cuts == [] then Partial
    else
      var r := PhrParseHeaders(s[..cuts[0]], max, seen);
      if r == Partial then FeedHeaders(s, max, cuts[0], cuts[1..]) else r
  }

  /** What a buffer is parsed as. */
  datatype Kind = AsRequest | AsResponse | AsHeaders

  /** The parse from the start rejects the buffer. */
  predicate Rejects(kind: Kind, s: Bytestring, max: nat) {
    match kind
    case AsRequest => ParseRequest(s, max) == Bad
    case AsResponse => ParseResponse(s, max) == Bad
    case AsHeaders => ParseHeaders(s, 0, 0, max) == Bad
  }

  /** Some look notices a bad buffer: its check meets a stray CR or a blank line; or nothing had been seen before, so
      that there is no check, and the parse rejects what is there. */
  ghost predicate Noticed(kind: Kind, s: Bytestring, max: nat, seen: nat, cuts: seq<nat>)
    requires Growing(s, seen, cuts)
    decreases |cuts|
  {
    cuts != [] &&
    ((if seen == 0 then Rejects(kind, s[..cuts[0]], max) else !Waiting(s[..cuts[0]], Recheck(seen)))
     || Noticed(kind, s, max, cuts[0], cuts[1..]))
  }

  /** Rechecking three bytes is enough: no stray CR and no blank line falls between two looks. */
  lemma {:induction false} WaitingSplits(s: Bytestring, seen: nat, cut: nat)
    requires seen <= cut <= |s|
    ensures Waiting(s, Recheck(seen)) <==> Waiting(s[..cut], Recheck(seen)) && Waiting(s, Recheck(cut))
  {
    var t := s[..cut];
    if Waiting(t, Recheck(seen)) && Waiting(s, Recheck(cut)) {
      forall lf, n | Recheck(seen) <= lf < n <= |s| ensures !BlankLine(s, lf, n) {
        if n <= cut {
          assert !BlankLine(t, lf, n);
        }
      }
      forall k | Recheck(seen) <= k && k + 1 < |s| && s[k] == CR ensures s[k + 1] == LF {
        if k + 1 < cut {
          assert t[k] == s[k];
        }
      }
    }
    if Waiting(s, Recheck(seen)) {
      forall lf, n | Recheck(seen) <= lf < n <= cut ensures !BlankLine(t, lf, n) { assert !BlankLine(s, lf, n); }
    }
  }

  /** So what the looks notice does not depend on where the buffer was cut: once something had been seen, they notice
      exactly what one look at the whole buffer would notice. */
  lemma {:induction false} NoticedExactly(kind: Kind, s: Bytestring, max: nat, seen: nat, cuts: seq<nat>)
    requires Growing(s, seen, cuts) && seen > 0 && cuts != []
    ensures Noticed(kind, s, max, seen, cuts) <==> !Waiting(s, Recheck(seen))
    decreases |cuts|
  {
    WaitingSplits(s, seen, cuts[0]);
    if cuts[1..] == [] {
      assert s[..cuts[0]] == s;
    } else {
      NoticedExactly(kind, s, max, cuts[0], cuts[1..]);
    }
  }

  /** From the start of a conversation: only the first look and the bytes from three before its end on matter. */
  lemma {:induction false} NoticedFromStart(kind: Kind, s: Bytestring, max: nat, cuts: seq<nat>)
    requires Growing(s, 0, cuts) && cuts != [] && cuts[0] > 0
    ensures Noticed(kind, s, max, 0, cuts) <==>
      Rejects(kind, s[..cuts[0]], max) || (|cuts| > 1 && !Waiting(s, Recheck(cuts[0])))
  {
    if |cuts| > 1 {
      NoticedExactly(kind, s, max, cuts[0], cuts[1..]);
    }
  }

  /** However a buffer grows, resumed parsing gives what one parse of all the bytes gives, if and only if that is not a
      rejection or some look notices. If not, it waits. */
  lemma {:induction false} FedRequest(s: Bytestring, max: nat, seen: nat, cuts: seq<nat>)
    requires Growing(s, seen, cuts) && seen <= |s| && !ParseRequest(s[..seen], max).Ok?
    ensures var fed, whole := FeedRequest(s, max, seen, cuts), ParseRequest(s, max);
      && (fed == whole <==> whole != Bad || Noticed(AsRequest, s, max, seen, cuts))
      && (fed != whole ==> fed == Partial)
    decreases |cuts|
  {
    if cuts == [] {
      assert s[..seen] == s;
    } else {
      var t := s[..cuts[0]];
      assert t[..seen] == s[..seen];
      ResumedRequest(t, max, seen);
      RequestStable(t, s, max);
      if ParseRequest(t, max) == Partial {
        RequestWaits(t, max);
        CheckWaits(t, seen);
      }
      if !ParseRequest(t, max).Ok? {
        FedRequest(s, max, cuts[0], cuts[1..]);
      }
    }
  }

  /** The same for responses. */
  lemma {:induction false} FedResponse(s: Bytestring, max: nat, seen: nat, cuts: seq<nat>)
    requires Growing(s, seen, cuts) && seen <= |s| && !ParseResponse(s[..seen], max).Ok?
    ensures var fed, whole := FeedResponse(s, max, seen, cuts), ParseResponse(s, max);
      && (fed == whole <==> whole != Bad || Noticed(AsResponse, s, max, seen, cuts))
      && (fed != whole ==> fed == Partial)
    decreases |cuts|
  {
    if cuts == [] {
      assert s[..seen] == s;
    } else {
      var t := s[..cuts[0]];
      assert t[..seen] == s[..seen];
      ResumedResponse(t, max, seen);
      ResponseStable(t, s, max);
      if ParseResponse(t, max) == Partial {
        ResponseWaits(t, max);
        CheckWaits(t, seen);
      }
      if !ParseResponse(t, max).Ok? {
        FedResponse(s, max, cuts[0], cuts[1..]);
      }
    }
  }

  /** A look finds an empty block that starts with a CR: as a first look, by its two bytes; later, by a blank line
      further on that its check meets before a stray CR, as no earlier check did. */
  ghost predicate BlockFound(s: Bytestring, seen: nat, cuts: seq<nat>)
    requires Growing(s, seen, cuts)
    decreases |cuts|
  {
    cuts != [] &&
    var t := s[..cuts[0]];
    if seen == 0 then |t| >= 2 || BlockFound(s, cuts[0], cuts[1..])
    else BlankAhead(t, Recheck(seen)) || (Waiting(t, Recheck(seen)) && BlockFound(s, cuts[0], cuts[1..]))
  }

  /** A clean blank line ahead is seen in the front part, or the front part waits and the line is seen by the
      recheck. */
  lemma {:induction false} BlankAheadSplits(s: Bytestring, seen: nat, cut: nat)
    requires seen <= cut <= |s|
    ensures BlankAhead(s, Recheck(seen)) <==>
      BlankAhead(s[..cut], Recheck(seen)) || (Waiting(s[..cut], Recheck(seen)) && BlankAhead(s, Recheck(cut)))
  {
    var t, i := s[..cut], Recheck(seen);
    if BlankAhead(t, i) {
      var lf, n :| i <= lf < n <= |t| && BlankLine(t, lf, n) && Clean(t, i, n);
      assert BlankLine(s, lf, n) && Clean(s, i, n);
    } else if BlankAhead(s, i) {
      var lf, n :| i <= lf < n <= |s| && BlankLine(s, lf, n) && Clean(s, i, n);
      LaterBlank(s, i, cut, lf, n);
    } else if Waiting(t, i) && BlankAhead(s, Recheck(cut)) {
      var lf, n :| Recheck(cut) <= lf < n <= |s| && BlankLine(s, lf, n) && Clean(s, Recheck(cut), n);
      forall k | i <= k < n && s[k] == CR ensures k + 1 < n && s[k + 1] == LF {
        if k < Recheck(cut) {
          assert t[k] == s[k] && t[k + 1] == s[k + 1];
        }
      }
      assert Clean(s, i, n);
    }
  }

  lemma LaterBlank(s: Bytestring, i: nat, cut: nat, lf: nat, n: nat)
    requires i <= Recheck(cut) && cut <= |s| && i <= lf < n <= |s|
    requires BlankLine(s, lf, n) && Clean(s, i, n) && !BlankAhead(s[..cut], i)
    ensures Waiting(s[..cut], i) && BlankAhead(s, Recheck(cut))
  {
    var t := s[..cut];
    if n <= cut {
      assert BlankLine(t, lf, n) && Clean(t, i, n);
    }
    forall lf', n' | i <= lf' < n' <= cut ensures !BlankLine(t, lf', n') {
      if BlankLine(t, lf', n') {
        forall k | i <= k < n' && t[k] == CR ensures k + 1 < n' && t[k + 1] == LF { assert s[k] == CR; }
        assert Clean(t, i, n');
      }
    }
    assert Unbroken(t, i);
    assert Clean(s, Recheck(cut), n);
  }

  /** So whether an empty block is found does not depend on where the buffer was cut, once something had been seen. */
  lemma {:induction false} BlockFoundExactly(s: Bytestring, seen: nat, cuts: seq<nat>)
    requires Growing(s, seen, cuts) && seen > 0 && cuts != []
    ensures BlockFound(s, seen, cuts) <==> BlankAhead(s, Recheck(seen))
    decreases |cuts|
  {
    BlankAheadSplits(s, seen, cuts[0]);
    if cuts[1..] == [] {
      assert s[..cuts[0]] == s;
    } else {
      BlockFoundExactly(s, cuts[0], cuts[1..]);
    }
  }

  /** From the start of a conversation: the first look finds the block by its two bytes; if it sees the CR only, the
      block is found if and only if there is a clean blank line further on. */
  lemma {:induction false} BlockFoundFromStart(s: Bytestring, cuts: seq<nat>)
    requires Growing(s, 0, cuts) && cuts != [] && cuts[0] > 0 && |s| >= 2
    ensures BlockFound(s, 0, cuts) <==> cuts[0] >= 2 || BlankAhead(s, 0)
  {
    if cuts[0] == 1 {
      BlockFoundExactly(s, 1, cuts[1..]);
    }
  }

  lemma {:induction false} FedEmptyBlock(s: Bytestring, max: nat, seen: nat, cuts: seq<nat>)
    requires Growing(s, seen, cuts) && seen <= |s| && s != [] && s[0] == CR && ParseHeaders(s, 0, 0, max).Ok?
    ensures FeedHeaders(s, max, seen, cuts) == ParseHeaders(s, 0, 0, max) <==> BlockFound(s, seen, cuts)
    decreases |cuts|
  {
    if cuts != [] {
      var t := s[..cuts[0]];
      if |t| >= 2 {
        assert t[0] == s[0] && t[1] == s[1];
      }
      CompleteExactly(t, Recheck(seen));
      WaitsExactly(t, Recheck(seen));
      FedEmptyBlock(s, max, cuts[0], cuts[1..]);
    }
  }

  /** The same for header blocks, with the exception of the empty block. */
  lemma {:induction false} FedHeaders(s: Bytestring, max: nat, seen: nat, cuts: seq<nat>)
    requires Growing(s, seen, cuts) && seen <= |s| && !ParseHeaders(s[..seen], 0, 0, max).Ok?
    ensures var fed, whole := FeedHeaders(s, max, seen, cuts), ParseHeaders(s, 0, 0, max);
      && (whole == Bad && fed != whole ==> fed == Partial)
      && (fed == whole <==>
          match whole
          case Partial => true
          case Bad => Noticed(AsHeaders, s, max, seen, cuts)
          case Ok(_, _) => s[0] != CR || BlockFound(s, seen, cuts))
    decreases |cuts|
  {
    if ParseHeaders(s, 0, 0, max).Ok? && s[0] == CR {
      FedEmptyBlock(s, max, seen, cuts);
    } else if cuts == [] {
      assert s[..seen] == s;
    } else {
      var t := s[..cuts[0]];
      assert t[..seen] == s[..seen];
      ResumedHeaders(t, max, seen);
      HeadersStable(t, s, 0, 0, max);
      if ParseHeaders(t, 0, 0, max) == Partial {
        BlockWaits(t, max);
        CheckWaits(t, seen);
      }
      if !ParseHeaders(t, 0, 0, max).Ok? {
        FedHeaders(s, max, cuts[0], cuts[1..]);
      }
    }
  }
}

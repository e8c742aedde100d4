/** When the HTTP parser rejects and when it waits: a buffer is rejected if and only if no extension of it parses, and
    waited on if and only if it does not parse and some extension does. */
module HttpReject {
  import opened Bytes
  import opened HttpScan
  import opened HttpParse
  import opened HttpPrint

  // ---- What to add to a part that waits ----

  lemma {:induction false} TokenExtends(s: Bytestring, start: nat, i: nat)
    requires start <= i <= |s| && ScanToken(s, start, i) == Partial
    ensures ScanToken(s + [SP], start, i) == Ok(|s|, Slice(start, |s| - start))
    decreases |s| - i
  {
    if i < |s| {
      TokenExtends(s, start, i + 1);
    }
  }

  lemma LineEndExtends(s: Bytestring, start: nat, i: nat)
    requires start <= i < |s| && LineEnd(s, start, i) == Partial
    ensures LineEnd(s + [LF], start, i) == Ok(|s| + 1, Slice(start, i - start))
  {
  }

  lemma {:induction false} TextExtends(s: Bytestring, start: nat, i: nat)
    requires start <= i <= |s| && ScanText(s, start, i) == Partial
    ensures ScanText(s + [LF], start, i).Ok? && ScanText(s + [LF], start, i).next == |s| + 1
    decreases |s| - i
  {
    if i < |s| && !EndsText(s[i]) {
      TextExtends(s, start, i + 1);
    }
  }

  lemma {:induction false} ColonExtends(s: Bytestring, i: nat)
    requires i <= |s| && ScanName(s, i) == Partial
    ensures ScanName(s + [COLON], i).Ok? && ScanName(s + [COLON], i).next == |s|
    decreases |s| - i
  {
    if i < |s| {
      ColonExtends(s, i + 1);
    }
  }

  lemma {:induction false} BlanksExtend(s: Bytestring, i: nat)
    requires i <= |s| && SkipBlanks(s, i) == Partial
    ensures SkipBlanks(s + [LF], i).Ok? && SkipBlanks(s + [LF], i).next == |s|
    decreases |s| - i
  {
    if i < |s| {
      BlanksExtend(s, i + 1);
    }
  }

  /** A name that waits is completed by the end of its line. */
  lemma {:induction false} NameExtends(s: Bytestring, i: nat) returns (e: Bytestring)
    requires i < |s| && ParseName(s, i) == Partial
    ensures ParseName(s + e, i).Ok? && ParseName(s + e, i).next == |s + e| - 1 && e != [] && e[|e| - 1] == LF
  {
    var colon := ScanName(s, i);
    if colon.Ok? {
      e := [LF];
      NameStable(s, s + e, i);
      BlanksExtend(s, colon.next + 1);
    } else {
      e := [COLON, LF];
      ColonExtends(s, i);
      var t := s + [COLON];
      NameStable(t, t + [LF], i);
      assert t + [LF] == s + e;
    }
  }

  lemma {:induction false} LineExtends(s: Bytestring, i: nat, first: bool) returns (e: Bytestring)
    requires i < |s| && ParseLine(s, i, first) == Partial
    ensures ParseLine(s + e, i, first).Ok? && ParseLine(s + e, i, first).next == |s + e|
  {
    if !first && Blank(s[i]) {
      e := [LF];
      TextExtends(s, i, i);
    } else {
      var name := ParseName(s, i);
      if name.Ok? {
        e := [LF];
        ParseNameStable(s, s + e, i);
        TextExtends(s, name.next, name.next);
      } else {
        e := NameExtends(s, i);
      }
    }
  }

  /** A header block that waits is completed by the end of its line and an empty line. */
  lemma {:induction false} HeadersExtend(s: Bytestring, i: nat, num: nat, max: nat) returns (e: Bytestring)
    requires i <= |s| && ParseHeaders(s, i, num, max) == Partial
    ensures ParseHeaders(s + e, i, num, max).Ok?
    decreases |s| - i
  {
    e := [LF];
    if i < |s| && s[i] != CR && s[i] != LF {
      var line := ParseLine(s, i, num == 0);
      if line.Ok? {
        e := HeadersExtend(s, line.next, num + 1, max);
        LineStable(s, s + e, i, num == 0);
      } else {
        var e1 := LineExtends(s, i, num == 0);
        e := e1 + [LF];
        var t := s + e1;
        assert t + [LF] == s + e;
        LineStable(t, t + [LF], i, num == 0);
      }
    }
  }

  lemma {:induction false} DigitsExtend(s: Bytestring, i: nat, v: nat, c: byte)
    requires i <= |s| && Digits(s, i, v) == Partial && !Digit(c)
    ensures Digits(s + [c], i, v).Ok? && Digits(s + [c], i, v).next == |s|
    decreases |s| - i
  {
    if i < |s| {
      DigitsExtend(s, i + 1, v * 10 + (s[i] - 48), c);
    }
  }

  /** A number that waits is completed by a digit, if it has none, and any byte that is none. */
  lemma {:induction false} IntExtends(s: Bytestring, i: nat, c: byte) returns (e: Bytestring)
    requires i <= |s| && ParseInt(s, i) == Partial && !Digit(c)
    ensures ParseInt(s + e, i).Ok? && ParseInt(s + e, i).next == |s + e| - 1 && e != [] && e[|e| - 1] == c
  {
    if i == |s| {
      e := [48, c];
      var t := s + [48];
      assert t + [c] == s + e && Digits(t, i, 0) == Digits(t, i + 1, 0) == Partial;
      DigitsExtend(t, i, 0, c);
    } else {
      e := [c];
      DigitsExtend(s, i, 0, c);
    }
  }

  lemma {:induction false} PatternExtends(s: Bytestring, i: nat, pattern: Bytestring) returns (e: Bytestring)
    requires i <= |s| && ExpectAll(s, i, pattern) == Partial
    ensures ExpectAll(s + e, i, pattern).Ok? && ExpectAll(s + e, i, pattern).next == |s + e|
    decreases |pattern|
  {
    if i == |s| {
      e := pattern;
      PatternRead(s + e, i, pattern);
    } else {
      e := PatternExtends(s, i + 1, pattern[1..]);
    }
  }

  /** Its number is completed. */
  lemma {:induction false} VersionGoesOn(s: Bytestring, i: nat, c: byte) returns (e: Bytestring)
    requires i <= |s| && ExpectAll(s, i, HTTP_1).Ok? && ParseInt(s, ExpectAll(s, i, HTTP_1).next) == Partial
    requires !Digit(c)
    ensures ParseVersion(s + e, i).Ok? && ParseVersion(s + e, i).next == |s + e| - 1 && e != [] && e[|e| - 1] == c
  {
    e := IntExtends(s, ExpectAll(s, i, HTTP_1).next, c);
    PatternStable(s, s + e, i, HTTP_1);
  }

  lemma {:induction false} VersionExtends(s: Bytestring, i: nat, c: byte) returns (e: Bytestring)
    requires i <= |s| && ParseVersion(s, i) == Partial && !Digit(c)
    ensures ParseVersion(s + e, i).Ok? && ParseVersion(s + e, i).next == |s + e| - 1 && e != [] && e[|e| - 1] == c
  {
    var p := ExpectAll(s, i, HTTP_1);
    if p.Ok? {
      e := VersionGoesOn(s, i, c);
    } else {
      var e1 := PatternExtends(s, i, HTTP_1);
      var e2 := VersionGoesOn(s + e1, i, c);
      e := e1 + e2;
      Reassociate(s, e1, e2);
    }
  }

  /** The version and the headers of a request. */
  lemma {:induction false} TailExtends(s: Bytestring, i: nat, max: nat) returns (e: Bytestring)
    requires i <= |s| && ParseRequestTail(s, i, max) == Partial
    ensures ParseRequestTail(s + e, i, max).Ok?
  {
    var version := ParseVersion(s, i);
    if !version.Ok? {
      var e1 := VersionExtends(s, i, LF);
      e := e1 + [LF];
      TailEnds(s + e1, i, |s + e1| - 1, max);
      assert s + e1 + [LF] == s + e;
    } else {
      var line := LineEnd(s, version.next, version.next);
      if line.Ok? {
        e := HeadersExtend(s, line.next, 0, max);
        VersionStable(s, s + e, i);
      } else {
        e := [LF] + [LF];
        VersionStable(s, s + e, i);
        assert s + e == s + [LF] + [LF];
      }
    }
  }

  lemma TailEnds(s: Bytestring, i: nat, j: nat, max: nat)
    requires i <= |s| && j + 1 == |s| && ParseVersion(s, i).Ok? && ParseVersion(s, i).next == j && s[j] == LF
    ensures ParseRequestTail(s + [LF], i, max).Ok?
  {
    VersionStable(s, s + [LF], i);
  }

  /** The rest of a request behind its two tokens. */
  const REST: Bytestring := VERSION_LINE + (PrintFields(false, []) + [LF])

  lemma {:induction false} RestParses(s: Bytestring, max: nat)
    ensures |s| < |s + REST| && ParseRequestTail(s + REST, |s| + 1, max).Ok?
  {
    assert At(s + REST, |s|, REST);
    var n, hs := TailRead(s + REST, |s|, [], max);
  }

  lemma RestStarts(s: Bytestring)
    ensures s + [SP] <= s + REST
  {
    assert REST[0] == SP;
  }

  lemma TokensJoin(s: Bytestring, i: nat, j: nat)
    requires i < j <= |s| && ScanToken(s, i, i).Ok? && ScanToken(s, i, i).next + 1 == j && ScanToken(s, j, j).Ok?
    ensures ParseTarget(s, i).Ok? && ParseTarget(s, i).next == ScanToken(s, j, j).next + 1
  {
  }

  /** The second token is completed by the space in front of the version. */
  lemma {:induction false} SecondExtends(s: Bytestring, i: nat, j: nat)
    requires i < j <= |s| && ScanToken(s, i, i).Ok? && ScanToken(s, i, i).next + 1 == j && ScanToken(s, j, j) == Partial
    ensures ParseTarget(s + REST, i).Ok? && ParseTarget(s + REST, i).next == |s| + 1
  {
    TokenStable(s, s + REST, i, i);
    TokenExtends(s, j, j);
    RestStarts(s);
    TokenStable(s + [SP], s + REST, j, j);
    TokensJoin(s + REST, i, j);
  }

  /** Two tokens that wait are completed by spaces. */
  lemma {:induction false} TokensExtend(s: Bytestring, i: nat) returns (e: Bytestring)
    requires i <= |s| && ParseTarget(s, i) == Partial
    ensures ParseTarget(s + e + REST, i).Ok? && ParseTarget(s + e + REST, i).next == |s + e| + 1
  {
    var first := ScanToken(s, i, i);
    if first.Ok? {
      e := [];
      assert s + e == s;
      SecondExtends(s, i, first.next + 1);
    } else {
      e := [SP];
      TokenExtends(s, i, i);
      SecondExtends(s + [SP], i, |s| + 1);
    }
  }

  lemma {:induction false} TargetExtends(s: Bytestring, i: nat, max: nat) returns (e: Bytestring)
    requires i <= |s| && ParseTarget(s, i) == Partial
    ensures ParseTarget(s + e, i).Ok? && ParseRequestTail(s + e, ParseTarget(s + e, i).next, max).Ok?
  {
    var e1 := TokensExtend(s, i);
    e := e1 + REST;
    Reassociate(s, e1, REST);
    RestParses(s + e1, max);
  }

  lemma TextParses(max: nat)
    ensures ParseRequest(RequestText([], [], []), max).Ok?
  {
    PrintThenParse([], [], [], max, []);
    assert RequestText([], [], []) + [] == RequestText([], [], []);
  }

  lemma InFront(text: Bytestring)
    ensures Eol(true) + text + [] == [CR] + ([LF] + text)
  {
  }

  lemma EmptyLineParses(max: nat)
    ensures ParseRequest([CR] + ([LF] + RequestText([], [], [])), max).Ok?
  {
    EmptyLineThenRequest(true, [], [], [], max, []);
    InFront(RequestText([], [], []));
  }

  /** Nothing, or the first half of an empty line. */
  lemma {:induction false} StartExtends(s: Bytestring, max: nat) returns (e: Bytestring)
    requires SkipEmptyLine(s, 0) == Partial
    ensures ParseRequest(s + e, max).Ok?
  {
    e := if s == [] then RequestText([], [], []) else [LF] + RequestText([], [], []);
    assert s == [] ==> s + e == e;
    assert s != [] ==> s == [CR];
    TextParses(max);
    EmptyLineParses(max);
  }

  lemma RequestJoins(s: Bytestring, max: nat, i: nat)
    requires i <= |s| && SkipEmptyLine(s, 0).Ok? && SkipEmptyLine(s, 0).next == i && ParseTarget(s, i).Ok?
    requires ParseRequestTail(s, ParseTarget(s, i).next, max).Ok?
    ensures ParseRequest(s, max).Ok?
  {
  }

  lemma {:induction false} RequestExtends(s: Bytestring, max: nat) returns (e: Bytestring)
    requires ParseRequest(s, max) == Partial
    ensures ParseRequest(s + e, max).Ok?
  {
    var skip := SkipEmptyLine(s, 0);
    if !skip.Ok? {
      e := StartExtends(s, max);
    } else {
      var target := ParseTarget(s, skip.next);
      if target.Ok? {
        e := TailExtends(s, target.next, max);
        TargetStable(s, s + e, skip.next);
      } else {
        e := TargetExtends(s, skip.next, max);
      }
      RequestJoins(s + e, max, skip.next);
    }
  }

  /** A buffer is rejected if and only if no extension of it is a request; it is waited on if and only if it is none yet
      and some extension is one. */
  lemma {:induction false} RequestRejectsExactly(s: Bytestring, max: nat)
    ensures ParseRequest(s, max) == Bad <==> forall e :: !ParseRequest(s + e, max).Ok?
    ensures ParseRequest(s, max) == Partial <==> !ParseRequest(s, max).Ok? && exists e :: ParseRequest(s + e, max).Ok?
  {
    assert s + [] == s;
    forall e | ParseRequest(s, max) == Bad ensures !ParseRequest(s + e, max).Ok? {
      RequestStable(s, s + e, max);
    }
    if ParseRequest(s, max) == Partial {
      var e := RequestExtends(s, max);
    }
  }

  /** The same for header blocks, from any line on. */
  lemma {:induction false} HeadersRejectExactly(s: Bytestring, i: nat, num: nat, max: nat)
    requires i <= |s|
    ensures ParseHeaders(s, i, num, max) == Bad <==> forall e :: !ParseHeaders(s + e, i, num, max).Ok?
    ensures ParseHeaders(s, i, num, max) == Partial <==>
      !ParseHeaders(s, i, num, max).Ok? && exists e :: ParseHeaders(s + e, i, num, max).Ok?
  {
    assert s + [] == s;
    forall e | ParseHeaders(s, i, num, max) == Bad ensures !ParseHeaders(s + e, i, num, max).Ok? {
      HeadersStable(s, s + e, i, num, max);
    }
    if ParseHeaders(s, i, num, max) == Partial {
      var e := HeadersExtend(s, i, num, max);
    }
  }

  // ---- Responses ----

  lemma {:induction false} StatusExtends(s: Bytestring, i: nat) returns (e: Bytestring)
    requires i <= |s| && StatusSpace(s, i) == Partial
    ensures StatusSpace(s + e, i).Ok? && StatusSpace(s + e, i).next == |s + e|
  {
    e := IntExtends(s, i, SP);
  }

  lemma {:induction false} VersionSpaceExtends(s: Bytestring) returns (e: Bytestring)
    requires VersionSpace(s, 0) == Partial
    ensures VersionSpace(s + e, 0).Ok? && VersionSpace(s + e, 0).next == |s + e|
  {
    e := VersionExtends(s, 0, SP);
  }

  lemma {:induction false} HeadExtends(s: Bytestring) returns (e: Bytestring)
    requires ParseStatus(s, 0) == Partial
    ensures ParseStatus(s + e, 0).Ok? && ParseStatus(s + e, 0).next == |s + e|
  {
    var version := VersionSpace(s, 0);
    if version.Ok? {
      e := StatusExtends(s, version.next);
      VersionSpaceStable(s, s + e, 0);
    } else {
      var e1 := VersionSpaceExtends(s);
      var t := s + e1;
      assert StatusSpace(t, |t|) == Partial;
      var e2 := StatusExtends(t, |t|);
      e := e1 + e2;
      assert t + e2 == s + e;
      VersionSpaceStable(t, t + e2, 0);
    }
  }

  lemma {:induction false} MessageExtends(s: Bytestring, i: nat, max: nat) returns (e: Bytestring)
    requires i <= |s| && ParseResponseTail(s, i, max) == Partial
    ensures ParseResponseTail(s + e, i, max).Ok?
  {
    var msg := ScanText(s, i, i);
    if msg.Ok? {
      e := HeadersExtend(s, msg.next, 0, max);
      TextStable(s, s + e, i, i);
    } else {
      e := [LF] + [LF];
      TextExtends(s, i, i);
      assert s + e == s + [LF] + [LF];
      TextStable(s + [LF], s + e, i, i);
    }
  }

  lemma {:induction false} ResponseExtends(s: Bytestring, max: nat) returns (e: Bytestring)
    requires ParseResponse(s, max) == Partial
    ensures ParseResponse(s + e, max).Ok?
  {
    var status := ParseStatus(s, 0);
    if status.Ok? {
      e := MessageExtends(s, status.next, max);
      StatusStable(s, s + e, 0);
    } else {
      var e1 := HeadExtends(s);
      var t := s + e1;
      assert ParseResponseTail(t, |t|, max) == Partial;
      var e2 := MessageExtends(t, |t|, max);
      e := e1 + e2;
      assert t + e2 == s + e;
      StatusStable(t, t + e2, 0);
    }
  }

  /** The same for responses. */
  lemma {:induction false} ResponseRejectsExactly(s: Bytestring, max: nat)
    ensures ParseResponse(s, max) == Bad <==> forall e :: !ParseResponse(s + e, max).Ok?
    ensures ParseResponse(s, max) == Partial <==>
      !ParseResponse(s, max).Ok? && exists e :: ParseResponse(s + e, max).Ok?
  {
    assert s + [] == s;
    forall e | ParseResponse(s, max) == Bad ensures !ParseResponse(s + e, max).Ok? {
      ResponseStable(s, s + e, max);
    }
    if ParseResponse(s, max) == Partial {
      var e := ResponseExtends(s, max);
    }
  }
}

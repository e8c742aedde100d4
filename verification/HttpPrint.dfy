/** The request text that the HTTP client writes, and the theorem that the parser reads it back exactly when its parts
    are well formed. */
module HttpPrint {
  import opened Bytes
  import opened HttpScan
  import opened HttpParse

  /** A name and a value. */
  type Field = (Bytestring, Bytestring)

  /** " HTTP/1.1\n" */
  const VERSION_LINE: Bytestring := [32, 72, 84, 84, 80, 47, 49, 46, 49, 10]

  /** The longest text `string_sprintf` returns. */
  const SPRINTF_LIMIT := 4095

  /** CR LF, or the bare LF that this client writes. */
  function Eol(crlf: bool): Bytestring {
    if crlf then [CR, LF] else [LF]
  }

  function PrintField(crlf: bool, f: Field): Bytestring {
    f.0 + [COLON, SP] + f.1 + Eol(crlf)
  }

  function PrintFields(crlf: bool, fs: seq<Field>): Bytestring {
    if fs == [] then [] else PrintField(crlf, fs[0]) + PrintFields(crlf, fs[1..])
  }

  /** The format "%s %s HTTP/1.1\n%s" with the printed headers and the empty line. */
  function RequestText(cmd: Bytestring, uri: Bytestring, fs: seq<Field>): Bytestring {
    cmd + [SP] + uri + VERSION_LINE + (PrintFields(false, fs) + [LF])
  }

  // ---- Well-formed parts ----

  predicate TokenByte(b: byte) { b > 32 && b != DEL }

  predicate NameByte(b: byte) { 32 <= b < 128 && b != COLON }

  ghost predicate WellFormedToken(w: Bytestring) {
    forall k :: 0 <= k < |w| ==> TokenByte(w[k])
  }

  ghost predicate WellFormedName(w: Bytestring) {
    w != [] && TokenChar(w[0]) && forall k :: 0 <= k < |w| ==> NameByte(w[k])
  }

  ghost predicate WellFormedValue(v: Bytestring) {
    && (forall k :: 0 <= k < |v| ==> !EndsText(v[k]))
    && (v != [] ==> !Blank(v[0]))
  }

  ghost predicate WellFormedField(f: Field) {
    WellFormedName(f.0) && WellFormedValue(f.1)
  }

  ghost predicate WellFormed(cmd: Bytestring, uri: Bytestring, fs: seq<Field>, max: nat) {
    && WellFormedToken(cmd) && WellFormedToken(uri)
    && |fs| <= max && forall k :: 0 <= k < |fs| ==> WellFormedField(fs[k])
  }

  // ---- What a parse result says about the text ----

  ghost predicate Within(s: Bytestring, w: Slice) {
    w.start + w.len <= |s|
  }

  /** A parsed header is the field `f`. */
  ghost predicate Shows(s: Bytestring, h: Header, f: Field) {
    && h.name.Some? && Within(s, h.name.value) && Within(s, h.value)
    && Content(s, h.name.value) == f.0 && Content(s, h.value) == f.1
  }

  ghost predicate ShowsAll(s: Bytestring, hs: seq<Header>, fs: seq<Field>) {
    |hs| == |fs| && forall k :: 0 <= k < |fs| ==> Shows(s, hs[k], fs[k])
  }

  /** The parse of `s` consumes `n` bytes and is the request of these parts. */
  ghost predicate ReadsBack(s: Bytestring, max: nat, n: nat, cmd: Bytestring, uri: Bytestring, fs: seq<Field>) {
    match ParseRequest(s, max)
    case Ok(next, r) =>
      && next == n && r.minorVersion == 1
      && Within(s, r.method_) && Content(s, r.method_) == cmd
      && Within(s, r.path) && Content(s, r.path) == uri
      && ShowsAll(s, r.headers, fs)
    case _ => false
  }

  lemma AtContent(s: Bytestring, i: nat, w: Bytestring)
    requires At(s, i, w)
    ensures Content(s, Slice(i, |w|)) == w
  {
  }

  // ---- Forth: a well-formed request is read back ----

  lemma {:induction false} TokenRead(s: Bytestring, i: nat, w: Bytestring, rest: Bytestring)
    requires At(s, i, w + rest) && WellFormedToken(w) && rest != [] && rest[0] == SP
    ensures ScanToken(s, i, i) == Ok(i + |w|, Slice(i, |w|))
    ensures At(s, i, w) && At(s, i + |w|, rest)
  {
    AtSplit(s, i, w, rest);
    forall k | i <= k < i + |w| ensures TokenByte(s[k]) { AtByte(s, i, w, k - i); }
    AtByte(s, i + |w|, rest, 0);
    TokenFound(s, i, i, i + |w|);
  }

  lemma EolRead(crlf: bool, s: Bytestring, i: nat)
    requires At(s, i, Eol(crlf))
    ensures i < |s| && if crlf then i + 1 < |s| && s[i] == CR && s[i + 1] == LF else s[i] == LF
    ensures LineEnd(s, i, i) == Ok(i + |Eol(crlf)|, Slice(i, 0))
  {
    AtByte(s, i, Eol(crlf), 0);
    if crlf {
      AtByte(s, i, Eol(crlf), 1);
    }
  }

  lemma {:induction false} TextRead(crlf: bool, s: Bytestring, i: nat, v: Bytestring)
    requires At(s, i, v + Eol(crlf)) && forall k :: 0 <= k < |v| ==> !EndsText(v[k])
    ensures ScanText(s, i, i) == Ok(i + |v| + |Eol(crlf)|, Slice(i, |v|))
    ensures At(s, i, v) && At(s, i + |v|, Eol(crlf))
  {
    AtSplit(s, i, v, Eol(crlf));
    forall k | i <= k < i + |v| ensures !EndsText(s[k]) { AtByte(s, i, v, k - i); }
    EolRead(crlf, s, i + |v|);
    TextFound(s, i, i, i + |v| + |Eol(crlf)|, i + |v|);
  }

  lemma {:induction false} ValueRead(crlf: bool, s: Bytestring, i: nat, v: Bytestring)
    requires At(s, i, v + Eol(crlf)) && WellFormedValue(v)
    ensures ScanText(s, i, i) == Ok(i + |v| + |Eol(crlf)|, Slice(i, |v|))
    ensures At(s, i, v) && !Blank(s[i])
  {
    TextRead(crlf, s, i, v);
    EolRead(crlf, s, i + |v|);
    if v != [] {
      AtByte(s, i, v, 0);
    }
  }

  lemma {:induction false} NameRead(s: Bytestring, i: nat, w: Bytestring)
    requires At(s, i, w + [COLON, SP]) && WellFormedName(w)
    requires i + |w| + 2 < |s| && !Blank(s[i + |w| + 2])
    ensures ParseName(s, i) == Ok(i + |w| + 2, Slice(i, |w|))
    ensures At(s, i, w) && !Blank(s[i]) && s[i] != CR && s[i] != LF
  {
    AtSplit(s, i, w, [COLON, SP]);
    forall k | i <= k < i + |w| ensures NameByte(s[k]) { AtByte(s, i, w, k - i); }
    AtByte(s, i, w, 0);
    AtByte(s, i + |w|, [COLON, SP], 0);
    AtByte(s, i + |w|, [COLON, SP], 1);
    NameFound(s, i, i + |w|);
    assert SkipBlanks(s, i + |w| + 2) == Ok(i + |w| + 2, ());
  }

  /** `ParseLine` of a line with a name. */
  lemma LineStep(s: Bytestring, i: nat, first: bool, k: nat, name: Slice, j: nat, value: Slice)
    requires i < |s| && !Blank(s[i])
    requires ParseName(s, i) == Ok(k, name) && k <= |s| && ScanText(s, k, k) == Ok(j, value)
    ensures ParseLine(s, i, first) == Ok(j, Header(Some(name), value))
  {
  }

  /** One printed field is one parsed line. */
  lemma {:induction false} FieldRead(crlf: bool, s: Bytestring, i: nat, f: Field, first: bool) returns (h: Header)
    requires At(s, i, PrintField(crlf, f)) && WellFormedField(f)
    ensures i < |s| && s[i] != CR && s[i] != LF
    ensures ParseLine(s, i, first) == Ok(i + |PrintField(crlf, f)|, h)
    ensures Shows(s, h, f)
  {
    Reassociate(f.0 + [COLON, SP], f.1, Eol(crlf));
    var k := i + |f.0| + 2;
    AtSplit(s, i, f.0 + [COLON, SP], f.1 + Eol(crlf));
    ValueRead(crlf, s, k, f.1);
    NameRead(s, i, f.0);
    LineStep(s, i, first, k, Slice(i, |f.0|), k + |f.1| + |Eol(crlf)|, Slice(k, |f.1|));
    h := Header(Some(Slice(i, |f.0|)), Slice(k, |f.1|));
    HeaderShows(s, i, k, f);
  }

  lemma HeaderShows(s: Bytestring, i: nat, k: nat, f: Field)
    requires At(s, i, f.0) && At(s, k, f.1)
    ensures Shows(s, Header(Some(Slice(i, |f.0|)), Slice(k, |f.1|)), f)
  {
    AtContent(s, i, f.0);
    AtContent(s, k, f.1);
  }

  lemma AtSum(s: Bytestring, i: nat, ab: Bytestring, a: Bytestring, b: Bytestring, c: Bytestring) returns (next: nat)
    requires ab == a + b && At(s, i, ab + c)
    ensures next == i + |a| && i + |ab| == next + |b| && At(s, i, a) && At(s, next, b + c)
  {
    next := i + |a|;
    Reassociate(a, b, c);
    AtSplit(s, i, a, b + c);
  }

  /** Where the first printed field ends and the others start. */
  lemma FieldsSplit(crlf: bool, s: Bytestring, i: nat, fs: seq<Field>) returns (next: nat)
    requires fs != [] && At(s, i, PrintFields(crlf, fs) + Eol(crlf))
    ensures next == i + |PrintField(crlf, fs[0])| && i + |PrintFields(crlf, fs)| == next + |PrintFields(crlf, fs[1..])|
    ensures At(s, i, PrintField(crlf, fs[0])) && At(s, next, PrintFields(crlf, fs[1..]) + Eol(crlf))
  {
    next := AtSum(s, i, PrintFields(crlf, fs), PrintField(crlf, fs[0]), PrintFields(crlf, fs[1..]), Eol(crlf));
  }

  lemma EmptyLineRead(crlf: bool, s: Bytestring, i: nat, num: nat, max: nat) returns (n: nat)
    requires At(s, i, [] + Eol(crlf))
    ensures n == i + |Eol(crlf)| && ParseHeaders(s, i, num, max) == Ok(n, [])
  {
    n := i + |Eol(crlf)|;
    assert [] + Eol(crlf) == Eol(crlf);
    EolRead(crlf, s, i);
  }

  /** `ParseHeaders` with one more line in front. */
  lemma HeaderStep(s: Bytestring, i: nat, num: nat, max: nat, next: nat, h: Header, n: nat, hs: seq<Header>)
    requires i < |s| && s[i] != CR && s[i] != LF && num != max
    requires ParseLine(s, i, num == 0) == Ok(next, h) && ParseHeaders(s, next, num + 1, max) == Ok(n, hs)
    ensures ParseHeaders(s, i, num, max) == Ok(n, [h] + hs)
  {
  }

  lemma ShowsStep(s: Bytestring, h: Header, hs: seq<Header>, fs: seq<Field>)
    requires fs != [] && Shows(s, h, fs[0]) && ShowsAll(s, hs, fs[1..])
    ensures ShowsAll(s, [h] + hs, fs)
  {
    forall k | 0 <= k < |fs| ensures Shows(s, ([h] + hs)[k], fs[k]) {
      if k > 0 {
        assert Shows(s, hs[k - 1], fs[1..][k - 1]);
      }
    }
  }

  lemma {:induction false} FieldsJoin(crlf: bool, s: Bytestring, i: nat, num: nat, fs: seq<Field>, max: nat,
                                      next: nat, n: nat, rest: seq<Header>) returns (hs: seq<Header>)
    requires fs != [] && At(s, i, PrintField(crlf, fs[0])) && WellFormedField(fs[0])
    requires next == i + |PrintField(crlf, fs[0])| && num < max
    requires ParseHeaders(s, next, num + 1, max) == Ok(n, rest) && ShowsAll(s, rest, fs[1..])
    ensures ParseHeaders(s, i, num, max) == Ok(n, hs) && ShowsAll(s, hs, fs)
  {
    var h := FieldRead(crlf, s, i, fs[0], num == 0);
    HeaderStep(s, i, num, max, next, h, n, rest);
    ShowsStep(s, h, rest, fs);
    hs := [h] + rest;
  }

  /** A printed block of fields is read back. */
  lemma {:induction false} FieldsRead(crlf: bool, s: Bytestring, i: nat, num: nat, fs: seq<Field>, max: nat)
    returns (n: nat, hs: seq<Header>)
    requires At(s, i, PrintFields(crlf, fs) + Eol(crlf)) && num + |fs| <= max
    requires forall k :: 0 <= k < |fs| ==> WellFormedField(fs[k])
    ensures n == i + |PrintFields(crlf, fs)| + |Eol(crlf)|
    ensures ParseHeaders(s, i, num, max) == Ok(n, hs) && ShowsAll(s, hs, fs)
    decreases |fs|
  {
    if fs == [] {
      n := EmptyLineRead(crlf, s, i, num, max);
      hs := [];
    } else {
      var next := FieldsSplit(crlf, s, i, fs);
      var rest;
      n, rest := FieldsRead(crlf, s, next, num + 1, fs[1..], max);
      hs := FieldsJoin(crlf, s, i, num, fs, max, next, n, rest);
    }
  }

  lemma {:induction false} VersionRead(s: Bytestring, i: nat)
    requires At(s, i, VERSION_LINE)
    ensures s[i] == SP && i + 10 <= |s|
    ensures ParseVersion(s, i + 1) == Ok(i + 9, 1) && LineEnd(s, i + 9, i + 9) == Ok(i + 10, Slice(i + 9, 0))
  {
    assert s[i] == 32 && s[i + 1] == 72 && s[i + 2] == 84 && s[i + 3] == 84 && s[i + 4] == 80 by {
      assert VERSION_LINE[0] == 32 && VERSION_LINE[1] == 72 && VERSION_LINE[2] == 84 && VERSION_LINE[3] == 84 &&
        VERSION_LINE[4] == 80;
    }
    assert s[i + 5] == 47 && s[i + 6] == 49 && s[i + 7] == 46 && s[i + 8] == 49 && s[i + 9] == LF by {
      assert VERSION_LINE[5] == 47 && VERSION_LINE[6] == 49 && VERSION_LINE[7] == 46 && VERSION_LINE[8] == 49 &&
        VERSION_LINE[9] == 10;
    }
    forall k | 0 <= k < 7 ensures s[i + 1 + k] == HTTP_1[k] {
      assert k == 0 || k == 1 || k == 2 || k == 3 || k == 4 || k == 5 || k == 6;
    }
    PatternRead(s, i + 1, HTTP_1);
    assert Digits(s, i + 8, 0) == Digits(s, i + 9, 1) == Ok(i + 9, 1);
  }

  lemma {:induction false} PatternRead(s: Bytestring, i: nat, pattern: Bytestring)
    requires i + |pattern| <= |s| && forall k :: 0 <= k < |pattern| ==> s[i + k] == pattern[k]
    ensures ExpectAll(s, i, pattern) == Ok(i + |pattern|, ())
    decreases |pattern|
  {
    if pattern != [] {
      forall k | 0 <= k < |pattern[1..]| ensures s[i + 1 + k] == pattern[1..][k] {
        assert s[i + (k + 1)] == pattern[k + 1];
      }
      PatternRead(s, i + 1, pattern[1..]);
    }
  }

  /** The text of a request, taken apart from the front. */
  function Nested(cmd: Bytestring, uri: Bytestring, rest: Bytestring): Bytestring {
    cmd + ([SP] + (uri + rest))
  }

  lemma TextIsNested(cmd: Bytestring, uri: Bytestring, fs: seq<Field>)
    ensures RequestText(cmd, uri, fs) == Nested(cmd, uri, VERSION_LINE + (PrintFields(false, fs) + [LF]))
    ensures |RequestText(cmd, uri, fs)| == |cmd| + 1 + |uri| + 10 + |PrintFields(false, fs)| + 1
  {
    var fields := PrintFields(false, fs) + [LF];
    Reassociate(cmd + [SP] + uri, VERSION_LINE, fields);
    Reassociate(cmd + [SP], uri, VERSION_LINE + fields);
    Reassociate(cmd, [SP], uri + (VERSION_LINE + fields));
  }

  /** The slices of the two tokens, and what they show. */
  ghost predicate TargetShows(s: Bytestring, target: (Slice, Slice), cmd: Bytestring, uri: Bytestring) {
    && Within(s, target.0) && Content(s, target.0) == cmd
    && Within(s, target.1) && Content(s, target.1) == uri
  }

  /** Where the two tokens of a text that starts at `i` lie. */
  function TargetOf(i: nat, cmd: Bytestring, uri: Bytestring): (Slice, Slice) {
    (Slice(i, |cmd|), Slice(i + |cmd| + 1, |uri|))
  }

  /** The two tokens are read. */
  lemma {:induction false} TargetRead(s: Bytestring, i: nat, cmd: Bytestring, uri: Bytestring, rest: Bytestring)
    requires At(s, i, Nested(cmd, uri, rest)) && rest != [] && rest[0] == SP
    requires WellFormedToken(cmd) && WellFormedToken(uri)
    ensures var k := i + |cmd| + 1 + |uri|; k < |s| && ParseTarget(s, i) == Ok(k + 1, TargetOf(i, cmd, uri))
  {
    var j := i + |cmd| + 1;
    TokenRead(s, i, cmd, [SP] + (uri + rest));
    AtSplit(s, i + |cmd|, [SP], uri + rest);
    TokenRead(s, j, uri, rest);
  }

  lemma TargetSeen(s: Bytestring, i: nat, cmd: Bytestring, uri: Bytestring, rest: Bytestring)
    requires At(s, i, Nested(cmd, uri, rest))
    ensures TargetShows(s, TargetOf(i, cmd, uri), cmd, uri)
  {
    AtSplit(s, i, cmd, [SP] + (uri + rest));
    AtSplit(s, i + |cmd|, [SP], uri + rest);
    AtSplit(s, i + |cmd| + 1, uri, rest);
    AtContent(s, i, cmd);
    AtContent(s, i + |cmd| + 1, uri);
  }

  /** A request starts with no empty line: its command is a token. */
  lemma StartsToken(s: Bytestring, w: Bytestring, rest: Bytestring)
    requires At(s, 0, w + rest) && rest != [] && rest[0] == SP && WellFormedToken(w)
    ensures SkipEmptyLine(s, 0) == Ok(0, ())
  {
    AtByte(s, 0, w + rest, 0);
  }

  /** An empty line in front of it is skipped. */
  lemma EmptyLineSkipped(crlf: bool, s: Bytestring)
    requires At(s, 0, Eol(crlf))
    ensures SkipEmptyLine(s, 0) == Ok(|Eol(crlf)|, ())
  {
    EolRead(crlf, s, 0);
  }

  lemma {:induction false} TailRead(s: Bytestring, i: nat, fs: seq<Field>, max: nat) returns (n: nat, hs: seq<Header>)
    requires At(s, i, VERSION_LINE + (PrintFields(false, fs) + [LF]))
    requires |fs| <= max && forall k :: 0 <= k < |fs| ==> WellFormedField(fs[k])
    ensures n == i + 10 + |PrintFields(false, fs)| + 1 && i < |s|
    ensures ParseRequestTail(s, i + 1, max) == Ok(n, (1, hs)) && ShowsAll(s, hs, fs)
  {
    AtSplit(s, i, VERSION_LINE, PrintFields(false, fs) + [LF]);
    VersionRead(s, i);
    n, hs := FieldsRead(false, s, i + 10, 0, fs, max);
    TailSteps(s, i + 1, i + 9, i + 10, max, n, hs);
  }

  /** `ParseRequestTail` step by step. */
  lemma TailSteps(s: Bytestring, i: nat, j: nat, k: nat, max: nat, n: nat, hs: seq<Header>)
    requires i <= |s| && ParseVersion(s, i) == Ok(j, 1) && LineEnd(s, j, j).Ok? && LineEnd(s, j, j).next == k
    requires ParseHeaders(s, k, 0, max) == Ok(n, hs)
    ensures ParseRequestTail(s, i, max) == Ok(n, (1, hs))
  {
  }

  /** `ParseRequest` step by step. */
  lemma RequestSteps(s: Bytestring, max: nat, i: nat, j: nat, target: (Slice, Slice), n: nat, hs: seq<Header>)
    requires SkipEmptyLine(s, 0) == Ok(i, ()) && i <= |s| && ParseTarget(s, i) == Ok(j, target) && j <= |s|
    requires ParseRequestTail(s, j, max) == Ok(n, (1, hs))
    ensures ParseRequest(s, max) == Ok(n, Request(target.0, target.1, 1, hs))
  {
  }

  lemma RequestShows(s: Bytestring, max: nat, n: nat, target: (Slice, Slice), hs: seq<Header>, cmd: Bytestring,
                     uri: Bytestring, fs: seq<Field>)
    requires ParseRequest(s, max) == Ok(n, Request(target.0, target.1, 1, hs))
    requires TargetShows(s, target, cmd, uri) && ShowsAll(s, hs, fs)
    ensures ReadsBack(s, max, n, cmd, uri, fs)
  {
  }

  /** What stands behind the two tokens. */
  lemma RestAt(s: Bytestring, i: nat, cmd: Bytestring, uri: Bytestring, rest: Bytestring)
    requires At(s, i, Nested(cmd, uri, rest))
    ensures At(s, i + |cmd| + 1 + |uri|, rest)
  {
    AtSplit(s, i, cmd, [SP] + (uri + rest));
    AtSplit(s, i + |cmd|, [SP], uri + rest);
    AtSplit(s, i + |cmd| + 1, uri, rest);
  }

  lemma {:induction false} BehindRead(s: Bytestring, k: nat, rest: Bytestring, fs: seq<Field>, max: nat)
    returns (n: nat, hs: seq<Header>)
    requires At(s, k, rest) && rest == VERSION_LINE + (PrintFields(false, fs) + [LF])
    requires |fs| <= max && forall j :: 0 <= j < |fs| ==> WellFormedField(fs[j])
    ensures n == k + 10 + |PrintFields(false, fs)| + 1 && k < |s|
    ensures ParseRequestTail(s, k + 1, max) == Ok(n, (1, hs)) && ShowsAll(s, hs, fs)
  {
    n, hs := TailRead(s, k, fs, max);
  }

  lemma {:induction false} NestedRead(s: Bytestring, i: nat, cmd: Bytestring, uri: Bytestring, rest: Bytestring,
                          fs: seq<Field>, max: nat)
    returns (k: nat, n: nat, hs: seq<Header>)
    requires At(s, i, Nested(cmd, uri, rest)) && rest == VERSION_LINE + (PrintFields(false, fs) + [LF])
    requires WellFormed(cmd, uri, fs, max)
    ensures n == i + |cmd| + 1 + |uri| + 10 + |PrintFields(false, fs)| + 1 && k < |s|
    ensures ParseTarget(s, i) == Ok(k + 1, TargetOf(i, cmd, uri))
    ensures ParseRequestTail(s, k + 1, max) == Ok(n, (1, hs)) && ShowsAll(s, hs, fs)
  {
    k := i + |cmd| + 1 + |uri|;
    TargetRead(s, i, cmd, uri, rest);
    RestAt(s, i, cmd, uri, rest);
    n, hs := BehindRead(s, k, rest, fs, max);
  }

  /** A printed request is read back wherever the skipped empty line, if there is one, leaves off. */
  lemma {:induction false} RequestRead(s: Bytestring, i: nat, cmd: Bytestring, uri: Bytestring, fs: seq<Field>,
                          max: nat)
    requires WellFormed(cmd, uri, fs, max) && SkipEmptyLine(s, 0) == Ok(i, ())
    requires At(s, i, RequestText(cmd, uri, fs))
    ensures ReadsBack(s, max, i + |RequestText(cmd, uri, fs)|, cmd, uri, fs)
  {
    TextIsNested(cmd, uri, fs);
    TargetSeen(s, i, cmd, uri, VERSION_LINE + (PrintFields(false, fs) + [LF]));
    var k, n, hs := NestedRead(s, i, cmd, uri, VERSION_LINE + (PrintFields(false, fs) + [LF]), fs, max);
    RequestSteps(s, max, i, k + 1, TargetOf(i, cmd, uri), n, hs);
    RequestShows(s, max, n, TargetOf(i, cmd, uri), hs, cmd, uri, fs);
  }

  lemma {:induction false} PrintThenParse(cmd: Bytestring, uri: Bytestring, fs: seq<Field>, max: nat, tail: Bytestring)
    requires WellFormed(cmd, uri, fs, max)
    ensures var text := RequestText(cmd, uri, fs); ReadsBack(text + tail, max, |text|, cmd, uri, fs)
  {
    var text := RequestText(cmd, uri, fs);
    var rest := [SP] + (uri + (VERSION_LINE + (PrintFields(false, fs) + [LF])));
    assert At(text + tail, 0, text);
    TextIsNested(cmd, uri, fs);
    StartsToken(text + tail, cmd, rest);
    RequestRead(text + tail, 0, cmd, uri, fs, max);
  }

  /** The same behind the empty line that some clients send after the body of the request before. */
  lemma {:induction false} EmptyLineThenRequest(crlf: bool, cmd: Bytestring, uri: Bytestring, fs: seq<Field>, max: nat,
                          tail: Bytestring)
    requires WellFormed(cmd, uri, fs, max)
    ensures var text := RequestText(cmd, uri, fs);
      ReadsBack(Eol(crlf) + text + tail, max, |Eol(crlf)| + |text|, cmd, uri, fs)
  {
    var text := RequestText(cmd, uri, fs);
    var s := Eol(crlf) + text + tail;
    assert At(s, 0, Eol(crlf) + text);
    AtSplit(s, 0, Eol(crlf), text);
    EmptyLineSkipped(crlf, s);
    RequestRead(s, |Eol(crlf)|, cmd, uri, fs, max);
  }

  /** Only one empty line is skipped. */
  lemma SecondEmptyLineRejected(first: bool, second: bool, s: Bytestring, max: nat)
    requires At(s, 0, Eol(first) + Eol(second))
    ensures ParseRequest(s, max) == Bad
  {
    AtSplit(s, 0, Eol(first), Eol(second));
    EmptyLineSkipped(first, s);
    EolRead(second, s, |Eol(first)|);
  }

  // ---- Back: whatever the parser returns is well formed ----

  lemma {:induction false} TokenParsed(s: Bytestring, i: nat)
    requires i <= |s| && ScanToken(s, i, i).Ok?
    ensures Within(s, ScanToken(s, i, i).val) && WellFormedToken(Content(s, ScanToken(s, i, i).val))
  {
    var n := ScanToken(s, i, i).next;
    TokenFound(s, i, i, n);
  }

  lemma {:induction false} TextParsed(s: Bytestring, i: nat)
    requires i <= |s| && ScanText(s, i, i).Ok?
    ensures var w := ScanText(s, i, i).val;
      Within(s, w) && forall k :: 0 <= k < w.len ==> !EndsText(Content(s, w)[k])
  {
    var r := ScanText(s, i, i);
    TextFound(s, i, i, r.next, i + r.val.len);
  }

  /** Every header of a parsed block is well formed; a continuation line only has no name. */
  ghost predicate WellFormedHeader(s: Bytestring, h: Header) {
    && Within(s, h.value)
    && (forall k :: 0 <= k < h.value.len ==> !EndsText(Content(s, h.value)[k]))
    && (h.name.Some? ==>
          && Within(s, h.name.value) && WellFormedName(Content(s, h.name.value))
          && WellFormedValue(Content(s, h.value)))
  }

  lemma {:induction false} NameParsed(s: Bytestring, i: nat)
    requires i < |s| && ParseName(s, i).Ok?
    ensures var r := ParseName(s, i); Within(s, r.val) && WellFormedName(Content(s, r.val)) && !Blank(s[r.next])
  {
    var colon := ScanName(s, i).next;
    NameFound(s, i, colon);
    assert colon > i;
  }

  lemma {:induction false} LineParsed(s: Bytestring, i: nat, first: bool)
    requires i < |s| && ParseLine(s, i, first).Ok?
    ensures WellFormedHeader(s, ParseLine(s, i, first).val)
  {
    if !first && Blank(s[i]) {
      TextParsed(s, i);
    } else {
      NameParsed(s, i);
      TextParsed(s, ParseName(s, i).next);
    }
  }

  lemma {:induction false} HeadersParsed(s: Bytestring, i: nat, num: nat, max: nat)
    requires i <= |s| && ParseHeaders(s, i, num, max).Ok? && num <= max
    ensures var r := ParseHeaders(s, i, num, max).val;
      num + |r| <= max && forall k :: 0 <= k < |r| ==> WellFormedHeader(s, r[k])
    decreases |s| - i
  {
    if s[i] != CR && s[i] != LF {
      LineParsed(s, i, num == 0);
      HeadersParsed(s, ParseLine(s, i, num == 0).next, num + 1, max);
    }
  }

  lemma {:induction false} RequestParsed(s: Bytestring, max: nat)
    requires ParseRequest(s, max).Ok?
    ensures var r := ParseRequest(s, max).val;
      && Within(s, r.method_) && WellFormedToken(Content(s, r.method_))
      && Within(s, r.path) && WellFormedToken(Content(s, r.path))
      && |r.headers| <= max && forall k :: 0 <= k < |r.headers| ==> WellFormedHeader(s, r.headers[k])
  {
    var i := SkipEmptyLine(s, 0).next;
    TokenParsed(s, i);
    var j := ScanToken(s, i, i).next + 1;
    TokenParsed(s, j);
    var k := ParseTarget(s, i).next;
    var l := ParseVersion(s, k).next;
    HeadersParsed(s, LineEnd(s, l, l).next, 0, max);
  }

  /** What is read back is well formed, whatever text it was read from. */
  lemma {:induction false} ReadBackWellFormed(s: Bytestring, max: nat, n: nat, cmd: Bytestring, uri: Bytestring,
                          fs: seq<Field>)
    requires ReadsBack(s, max, n, cmd, uri, fs)
    ensures WellFormed(cmd, uri, fs, max)
  {
    RequestParsed(s, max);
    var hs := ParseRequest(s, max).val.headers;
    forall k | 0 <= k < |fs| ensures WellFormedField(fs[k]) {
      assert Shows(s, hs[k], fs[k]) && WellFormedHeader(s, hs[k]);
    }
  }

  /** A printed request, with anything behind it, is read back to its parts, consuming exactly the printed text, if and
      only if its parts are well formed and there is room for its headers. */
  lemma {:induction false} ReadsBackExactly(cmd: Bytestring, uri: Bytestring, fs: seq<Field>, max: nat,
                          tail: Bytestring)
    ensures var text := RequestText(cmd, uri, fs);
      ReadsBack(text + tail, max, |text|, cmd, uri, fs) <==> WellFormed(cmd, uri, fs, max)
  {
    var text := RequestText(cmd, uri, fs);
    if ReadsBack(text + tail, max, |text|, cmd, uri, fs) {
      ReadBackWellFormed(text + tail, max, |text|, cmd, uri, fs);
    }
    if WellFormed(cmd, uri, fs, max) {
      PrintThenParse(cmd, uri, fs, max, tail);
    }
  }

  /** The same with an empty line of either kind in front, which is consumed too. */
  lemma {:induction false} EmptyLineSkippedExactly(crlf: bool, cmd: Bytestring, uri: Bytestring, fs: seq<Field>,
                          max: nat, tail: Bytestring)
    ensures var text := RequestText(cmd, uri, fs);
      ReadsBack(Eol(crlf) + text + tail, max, |Eol(crlf)| + |text|, cmd, uri, fs) <==> WellFormed(cmd, uri, fs, max)
  {
    var text := RequestText(cmd, uri, fs);
    if ReadsBack(Eol(crlf) + text + tail, max, |Eol(crlf)| + |text|, cmd, uri, fs) {
      ReadBackWellFormed(Eol(crlf) + text + tail, max, |Eol(crlf)| + |text|, cmd, uri, fs);
    }
    if WellFormed(cmd, uri, fs, max) {
      EmptyLineThenRequest(crlf, cmd, uri, fs, max, tail);
    }
  }

  // ---- Numbers ----

  /** The decimal digits of "%zu". */
  function Decimal(n: nat): Bytestring {
    if n < 10 then [48 + n] else Decimal(n / 10) + [48 + n % 10]
  }

  function DigitValue(b: byte): nat
    requires Digit(b)
  {
    b - 48
  }

  function Fold(v: nat, w: Bytestring): nat
    requires forall k :: 0 <= k < |w| ==> Digit(w[k])
  {
    if w == [] then v else Fold(v, w[..|w| - 1]) * 10 + DigitValue(w[|w| - 1])
  }

  lemma {:induction false} DecimalDigits(n: nat)
    ensures var w := Decimal(n); w != [] && (forall k :: 0 <= k < |w| ==> Digit(w[k])) && Fold(0, w) == n
    decreases n
  {
    if n >= 10 {
      DecimalDigits(n / 10);
      var w := Decimal(n);
      assert w[..|w| - 1] == Decimal(n / 10);
    } else {
      assert Decimal(n)[..0] == [];
    }
  }

  lemma {:induction false} DigitsOver(s: Bytestring, i: nat, v: nat, w: Bytestring)
    requires At(s, i, w) && forall k :: 0 <= k < |w| ==> Digit(w[k])
    ensures Digits(s, i, v) == Digits(s, i + |w|, Fold(v, w))
    decreases |w|
  {
    if w != [] {
      var head, last := w[..|w| - 1], w[|w| - 1];
      assert w == head + [last];
      AtSplit(s, i, head, [last]);
      DigitsOver(s, i, v, head);
      AtByte(s, i + |head|, [last], 0);
    }
  }

  /** Printing a number and scanning it gives the number, whatever stands behind it. */
  lemma {:induction false} DecimalReadsBack(s: Bytestring, i: nat, n: nat)
    requires At(s, i, Decimal(n)) && i + |Decimal(n)| < |s| && !Digit(s[i + |Decimal(n)|])
    ensures ParseInt(s, i) == Ok(i + |Decimal(n)|, n)
  {
    DecimalDigits(n);
    AtByte(s, i, Decimal(n), 0);
    DigitsOver(s, i, 0, Decimal(n));
  }
}

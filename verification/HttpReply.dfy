/** Responses as a server prints them, with either line end, and the theorem that the response parser reads them back
    exactly when their parts are well formed. */
module HttpReply {
  import opened Bytes
  import opened HttpScan
  import opened HttpParse
  import opened HttpPrint

  /** "HTTP/1.x status msg", the fields, and the empty line. */
  function ReplyText(crlf: bool, minor: nat, status: nat, msg: Bytestring, fs: seq<Field>): Bytestring {
    var rest := (msg + Eol(crlf)) + (PrintFields(crlf, fs) + Eol(crlf));
    HTTP_1 + (Decimal(minor) + ([SP] + (Decimal(status) + ([SP] + rest))))
  }

  ghost predicate WellFormedText(msg: Bytestring) {
    forall k :: 0 <= k < |msg| ==> !EndsText(msg[k])
  }

  ghost predicate WellFormedReply(msg: Bytestring, fs: seq<Field>, max: nat) {
    WellFormedText(msg) && |fs| <= max && forall k :: 0 <= k < |fs| ==> WellFormedField(fs[k])
  }

  /** The parse of `s` consumes `n` bytes and is the response of these parts. */
  ghost predicate ReplyReadsBack(s: Bytestring, max: nat, n: nat, minor: nat, status: nat, msg: Bytestring,
                          fs: seq<Field>) {
    var r := ParseResponse(s, max);
    && r.Ok? && r.next == n
    && r.val.minorVersion == minor && r.val.status == status
    && Within(s, r.val.msg) && Content(s, r.val.msg) == msg
    && ShowsAll(s, r.val.headers, fs)
  }

  lemma {:induction false} NumberRead(s: Bytestring, i: nat, n: nat, rest: Bytestring)
    requires At(s, i, Decimal(n) + ([SP] + rest))
    ensures ParseInt(s, i) == Ok(i + |Decimal(n)|, n) && Expect(s, i + |Decimal(n)|, SP) == Ok(i + |Decimal(n)| + 1, ())
    ensures At(s, i + |Decimal(n)| + 1, rest)
  {
    AtSplit(s, i, Decimal(n), [SP] + rest);
    AtSplit(s, i + |Decimal(n)|, [SP], rest);
    AtByte(s, i + |Decimal(n)|, [SP], 0);
    DecimalReadsBack(s, i, n);
  }

  lemma {:induction false} StatusRead(s: Bytestring, minor: nat, status: nat, rest: Bytestring) returns (i: nat)
    requires At(s, 0, HTTP_1 + (Decimal(minor) + ([SP] + (Decimal(status) + ([SP] + rest)))))
    ensures i == |HTTP_1| + |Decimal(minor)| + 1 + |Decimal(status)| + 1
    ensures ParseStatus(s, 0) == Ok(i, (minor, status)) && At(s, i, rest)
  {
    var numbers := Decimal(minor) + ([SP] + (Decimal(status) + ([SP] + rest)));
    AtSplit(s, 0, HTTP_1, numbers);
    forall k | 0 <= k < |HTTP_1| ensures s[0 + k] == HTTP_1[k] { AtByte(s, 0, HTTP_1, k); }
    PatternRead(s, 0, HTTP_1);
    NumberRead(s, |HTTP_1|, minor, Decimal(status) + ([SP] + rest));
    var j := |HTTP_1| + |Decimal(minor)| + 1;
    NumberRead(s, j, status, rest);
    i := j + |Decimal(status)| + 1;
    assert VersionSpace(s, 0) == Ok(j, minor);
    assert StatusSpace(s, j) == Ok(i, status);
  }

  lemma {:induction false} MessageRead(crlf: bool, s: Bytestring, i: nat, msg: Bytestring, rest: Bytestring)
    returns (j: nat, w: Slice)
    requires At(s, i, (msg + Eol(crlf)) + rest) && WellFormedText(msg)
    ensures j == i + |msg| + |Eol(crlf)| && At(s, j, rest)
    ensures ScanText(s, i, i) == Ok(j, w) && Within(s, w) && Content(s, w) == msg
  {
    AtSplit(s, i, msg + Eol(crlf), rest);
    TextRead(crlf, s, i, msg);
    AtContent(s, i, msg);
    j, w := i + |msg| + |Eol(crlf)|, Slice(i, |msg|);
  }

  lemma {:induction false} TailRead(crlf: bool, s: Bytestring, i: nat, msg: Bytestring, fs: seq<Field>, max: nat)
    returns (n: nat, w: Slice, hs: seq<Header>)
    requires At(s, i, (msg + Eol(crlf)) + (PrintFields(crlf, fs) + Eol(crlf))) && WellFormedReply(msg, fs, max)
    ensures n == i + |msg| + |Eol(crlf)| + |PrintFields(crlf, fs)| + |Eol(crlf)|
    ensures ParseResponseTail(s, i, max) == Ok(n, (w, hs))
    ensures Within(s, w) && Content(s, w) == msg && ShowsAll(s, hs, fs)
  {
    var j;
    j, w := MessageRead(crlf, s, i, msg, PrintFields(crlf, fs) + Eol(crlf));
    n, hs := FieldsRead(crlf, s, j, 0, fs, max);
    TailSteps(s, i, j, w, max, n, hs);
  }

  /** `ParseResponseTail` step by step. */
  lemma TailSteps(s: Bytestring, i: nat, j: nat, w: Slice, max: nat, n: nat, hs: seq<Header>)
    requires i <= |s| && ScanText(s, i, i) == Ok(j, w) && ParseHeaders(s, j, 0, max) == Ok(n, hs)
    ensures ParseResponseTail(s, i, max) == Ok(n, (w, hs))
  {
  }

  lemma {:induction false} PrintThenParseReply(crlf: bool, minor: nat, status: nat, msg: Bytestring, fs: seq<Field>,
                          max: nat, tail: Bytestring)
    requires WellFormedReply(msg, fs, max)
    ensures var text := ReplyText(crlf, minor, status, msg, fs);
      ReplyReadsBack(text + tail, max, |text|, minor, status, msg, fs)
  {
    var text := ReplyText(crlf, minor, status, msg, fs);
    var s := text + tail;
    assert At(s, 0, text);
    var i := StatusRead(s, minor, status, (msg + Eol(crlf)) + (PrintFields(crlf, fs) + Eol(crlf)));
    var n, w, hs := TailRead(crlf, s, i, msg, fs, max);
    ReplySteps(s, max, i, (minor, status), n, (w, hs));
    assert n == |text|;
  }

  lemma ReplySteps(s: Bytestring, max: nat, i: nat, status: (nat, nat), n: nat, tail: (Slice, seq<Header>))
    requires i <= |s| && ParseStatus(s, 0) == Ok(i, status) && ParseResponseTail(s, i, max) == Ok(n, tail)
    ensures ParseResponse(s, max) == Ok(n, Response(status.0, status.1, tail.0, tail.1))
  {
  }

  lemma {:induction false} ReplyParsed(s: Bytestring, max: nat)
    requires ParseResponse(s, max).Ok?
    ensures var r := ParseResponse(s, max).val;
      && Within(s, r.msg) && WellFormedText(Content(s, r.msg))
      && |r.headers| <= max && forall k :: 0 <= k < |r.headers| ==> WellFormedHeader(s, r.headers[k])
  {
    var i := ParseStatus(s, 0).next;
    TextParsed(s, i);
    HeadersParsed(s, ScanText(s, i, i).next, 0, max);
  }

  /** A printed response, with either line end and anything behind it, is read back to its parts, consuming exactly the
      printed text, if and only if its parts are well formed and there is room for its headers. */
  lemma {:induction false} ReplyReadsBackExactly(crlf: bool, minor: nat, status: nat, msg: Bytestring, fs: seq<Field>,
                          max: nat, tail: Bytestring)
    ensures var text := ReplyText(crlf, minor, status, msg, fs);
      ReplyReadsBack(text + tail, max, |text|, minor, status, msg, fs) <==> WellFormedReply(msg, fs, max)
  {
    var text := ReplyText(crlf, minor, status, msg, fs);
    var s := text + tail;
    if ReplyReadsBack(s, max, |text|, minor, status, msg, fs) {
      ReplyParsed(s, max);
      var hs := ParseResponse(s, max).val.headers;
      forall k | 0 <= k < |fs| ensures WellFormedField(fs[k]) {
        assert Shows(s, hs[k], fs[k]) && WellFormedHeader(s, hs[k]);
      }
    }
    if WellFormedReply(msg, fs, max) {
      PrintThenParseReply(crlf, minor, status, msg, fs, max, tail);
    }
  }
}

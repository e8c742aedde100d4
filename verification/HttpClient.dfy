/** The request side of the HTTP client: the header map with its printed cache, and the three request formats. */
module HttpClient {
  import opened Bytes
  import opened HttpScan
  import opened HttpParse
  import opened HttpPrint

  // ---- The header map, which prints in the order of its keys ----

  ghost predicate Sorted(fs: seq<Field>) {
    forall i, j :: 0 <= i < j < |fs| ==> Less(fs[i].0, fs[j].0)
  }

  /** `headers[key] = value` */
  function Insert(fs: seq<Field>, key: Bytestring, value: Bytestring): seq<Field> {
    if fs == [] || Less(key, fs[0].0) then [(key, value)] + fs
    else if key == fs[0].0 then [(key, value)] + fs[1..]
    else [fs[0]] + Insert(fs[1..], key, value)
  }

  function Lookup(fs: seq<Field>, key: Bytestring): Option<Bytestring> {
    if fs == [] then None else if fs[0].0 == key then Some(fs[0].1) else Lookup(fs[1..], key)
  }

  /** Insertion keeps the order and changes the value of its key only. */
  lemma {:induction false} InsertSorted(fs: seq<Field>, key: Bytestring, value: Bytestring)
    requires Sorted(fs)
    ensures Sorted(Insert(fs, key, value))
    ensures forall f <- Insert(fs, key, value) :: f.0 == key || f in fs
    decreases |fs|
  {
    if fs == [] {
    } else {
      LessTotal(key, fs[0].0);
      forall i | 0 < i < |fs| && Less(key, fs[0].0) ensures Less(key, fs[i].0) {
        LessTransitive(key, fs[0].0, fs[i].0);
      }
      if Less(fs[0].0, key) {
        InsertSorted(fs[1..], key, value);
        var rest := Insert(fs[1..], key, value);
        forall j | 0 <= j < |rest| ensures Less(fs[0].0, rest[j].0) {
          assert rest[j] in rest;
          if rest[j].0 != key {
            var k :| 0 <= k < |fs[1..]| && fs[1..][k] == rest[j];
            assert fs[k + 1] == rest[j];
          }
        }
        assert Insert(fs, key, value) == [fs[0]] + rest;
      }
    }
  }

  lemma {:induction false} InsertLookup(fs: seq<Field>, key: Bytestring, value: Bytestring, other: Bytestring)
    requires Sorted(fs)
    ensures Lookup(Insert(fs, key, value), other) == if other == key then Some(value) else Lookup(fs, other)
    decreases |fs|
  {
    var r := Insert(fs, key, value);
    if fs == [] || Less(key, fs[0].0) {
      assert r[1..] == fs;
    } else if key == fs[0].0 {
      assert r[1..] == fs[1..];
    } else {
      InsertLookup(fs[1..], key, value, other);
      assert r[1..] == Insert(fs[1..], key, value);
    }
  }

  // ---- Texts ----

  lemma {:induction false} CStringWhole(s: Bytestring)
    requires 0 !in s
    ensures CString(s) == s
    decreases |s|
  {
    if s != [] {
      CStringWhole(s[1..]);
    }
  }

  /** `string_sprintf` throws when its text does not fit. */
  function Sprintf(text: Bytestring): Option<Bytestring> {
    if |text| <= SPRINTF_LIMIT then Some(text) else None
  }

  /** "%s %s HTTP/1.1\n" */
  function StartLine(cmd: Bytestring, uri: Bytestring): Bytestring {
    CString(cmd) + [SP] + CString(uri) + VERSION_LINE
  }

  /** "MOVE" */
  const MOVE: Bytestring := [77, 79, 86, 69]
  /** "Destination" */
  const DESTINATION: Bytestring := [68, 101, 115, 116, 105, 110, 97, 116, 105, 111, 110]
  /** "Overwrite" */
  const OVERWRITE: Bytestring := [79, 118, 101, 114, 119, 114, 105, 116, 101]
  /** "Content-Length" */
  const CONTENT_LENGTH: Bytestring := [67, 111, 110, 116, 101, 110, 116, 45, 76, 101, 110, 103, 116, 104]
  /** "User-Agent" */
  const USER_AGENT: Bytestring := [85, 115, 101, 114, 45, 65, 103, 101, 110, 116]
  /** "ASIOLibs 1.2" */
  const AGENT: Bytestring := [65, 83, 73, 79, 76, 105, 98, 115, 32, 49, 46, 50]
  /** "Connection" */
  const CONNECTION: Bytestring := [67, 111, 110, 110, 101, 99, 116, 105, 111, 110]
  /** "Keep-Alive" */
  const KEEP_ALIVE: Bytestring := [75, 101, 101, 112, 45, 65, 108, 105, 118, 101]

  /** The header lines and the empty line, as `headers_cache` holds them. */
  function Block(fs: seq<Field>): Bytestring {
    PrintFields(false, fs) + [LF]
  }

  class Conn {
    var headers: seq<Field>
    var headersCache: Bytestring
    var headersCacheClear: bool

    ghost predicate Valid()
      reads this
    {
      Sorted(headers) && (!headersCacheClear ==> headersCache == Block(headers))
    }

    constructor ()
      ensures Valid() && headersCacheClear
      ensures headers == [(CONNECTION, KEEP_ALIVE), (USER_AGENT, AGENT)]
      ensures Lookup(headers, USER_AGENT) == Some(AGENT) && Lookup(headers, CONNECTION) == Some(KEEP_ALIVE)
    {
      var h := Insert([], USER_AGENT, AGENT);
      InsertSorted([], USER_AGENT, AGENT);
      InsertSorted(h, CONNECTION, KEEP_ALIVE);
      InsertLookup([], USER_AGENT, AGENT, USER_AGENT);
      InsertLookup(h, CONNECTION, KEEP_ALIVE, USER_AGENT);
      InsertLookup(h, CONNECTION, KEEP_ALIVE, CONNECTION);
      headers, headersCache, headersCacheClear := Insert(h, CONNECTION, KEEP_ALIVE), [], true;
      assert USER_AGENT[0] != CONNECTION[0];
    }

    /** `Headers()[key] = value`: handing the map out for writing marks the cache as stale. */
    method SetHeader(key: Bytestring, value: Bytestring)
      requires Valid()
      modifies this
      ensures Valid()
      ensures headers == Insert(old(headers), key, value)
    {
      headersCacheClear := true;
      InsertSorted(headers, key, value);
      headers := Insert(headers, key, value);
    }

    method HeadersCacheCheck()
      requires Valid()
      modifies this
      ensures Valid() && headers == old(headers)
      ensures headersCache == Block(headers)
    {
      if headersCacheClear {
        headersCache := [];
        headersCacheClear := false;
        for i := 0 to |headers|
          invariant headers == old(headers) && !headersCacheClear
          invariant headersCache == PrintFields(false, headers[..i])
        {
          PrintOneMore(headers, i);
          headersCache := headersCache + headers[i].0;
          headersCache := headersCache + [COLON, SP];
          headersCache := headersCache + headers[i].1;
          headersCache := headersCache + [LF];
        }
        assert headers[..|headers|] == headers;
        headersCache := headersCache + [LF];
      }
    }

    /** The text of `DoSimpleRequest`, or nothing where it throws. */
    method SimpleRequest(cmd: Bytestring, uri: Bytestring) returns (req: Option<Bytestring>)
      requires Valid()
      modifies this
      ensures Valid() && headers == old(headers)
      ensures req == Sprintf(StartLine(cmd, uri) + CString(Block(headers)))
    {
      HeadersCacheCheck();
      req := Sprintf(StartLine(cmd, uri) + CString(headersCache));
    }

    /** The text of `MOVE`. */
    method MoveRequest(from: Bytestring, to: Bytestring, overwrite: bool) returns (req: Option<Bytestring>)
      requires Valid()
      modifies this
      ensures Valid() && headers == old(headers)
      ensures req == Sprintf(StartLine(MOVE, from) + MoveLines(to, overwrite) + CString(Block(headers)))
    {
      HeadersCacheCheck();
      req := Sprintf(StartLine(MOVE, from) + MoveLines(to, overwrite) + CString(headersCache));
    }

    /** The text of `DoPostRequest` and `WriteRequestHeaders`. */
    method PostRequest(cmd: Bytestring, uri: Bytestring, contentLength: nat) returns (req: Option<Bytestring>)
      requires Valid()
      modifies this
      ensures Valid() && headers == old(headers)
      ensures req == Sprintf(StartLine(cmd, uri) + LengthLine(contentLength) + CString(Block(headers)))
    {
      HeadersCacheCheck();
      req := Sprintf(StartLine(cmd, uri) + LengthLine(contentLength) + CString(headersCache));
    }
  }

  /** "Destination: %s\nOverwrite: %s\n" */
  function MoveLines(to: Bytestring, overwrite: bool): Bytestring {
    DESTINATION + [COLON, SP] + CString(to) + [LF] + OVERWRITE + [COLON, SP] + [if overwrite then 84 else 70] + [LF]
  }

  /** "Content-Length: %zu\n" */
  function LengthLine(n: nat): Bytestring {
    CONTENT_LENGTH + [COLON, SP] + Decimal(n) + [LF]
  }

  lemma {:induction false} PrintAppend(a: seq<Field>, b: seq<Field>)
    ensures PrintFields(false, a + b) == PrintFields(false, a) + PrintFields(false, b)
    decreases |a|
  {
    if a == [] {
      assert a + b == b;
    } else {
      assert (a + b)[1..] == a[1..] + b;
      PrintAppend(a[1..], b);
      Reassociate(PrintField(false, a[0]), PrintFields(false, a[1..]), PrintFields(false, b));
    }
  }

  lemma PrintSingle(f: Field)
    ensures PrintFields(false, [f]) == PrintField(false, f)
  {
    assert PrintFields(false, [f]) == PrintField(false, f) + PrintFields(false, []);
  }

  lemma {:induction false} PrintOneMore(fs: seq<Field>, i: nat)
    requires i < |fs|
    ensures PrintFields(false, fs[..i + 1]) == PrintFields(false, fs[..i]) + fs[i].0 + [COLON, SP] + fs[i].1 + [LF]
  {
    assert fs[..i + 1] == fs[..i] + [fs[i]];
    PrintAppend(fs[..i], [fs[i]]);
    PrintSingle(fs[i]);
    assert PrintFields(false, fs[..i]) + PrintField(false, fs[i]) ==
      PrintFields(false, fs[..i]) + fs[i].0 + [COLON, SP] + fs[i].1 + [LF];
  }

  // ---- What is sent is what was asked for ----

  lemma NoNulFields(fs: seq<Field>)
    requires forall k :: 0 <= k < |fs| ==> WellFormedField(fs[k])
    ensures 0 !in Block(fs)
    decreases |fs|
  {
    if fs != [] {
      NoNulFields(fs[1..]);
      assert WellFormedField(fs[0]);
      assert 0 !in PrintField(false, fs[0]);
      assert Block(fs) == PrintField(false, fs[0]) + Block(fs[1..]) by {
        Reassociate(PrintField(false, fs[0]), PrintFields(false, fs[1..]), [LF]);
      }
    }
  }

  lemma {:induction false} WholeStrings(cmd: Bytestring, uri: Bytestring, fs: seq<Field>)
    requires WellFormedToken(cmd) && WellFormedToken(uri)
    requires forall k :: 0 <= k < |fs| ==> WellFormedField(fs[k])
    ensures StartLine(cmd, uri) == cmd + [SP] + uri + VERSION_LINE && CString(Block(fs)) == Block(fs)
  {
    CStringWhole(cmd);
    CStringWhole(uri);
    NoNulFields(fs);
    CStringWhole(Block(fs));
  }

  /** The text `req`, with anything behind it, is sent and read back as the request of these parts. */
  ghost predicate Arrives(req: Option<Bytestring>, tail: Bytestring, max: nat, cmd: Bytestring, uri: Bytestring,
                          fs: seq<Field>) {
    req.Some? && ReadsBack(req.value + tail, max, |req.value|, cmd, uri, fs)
  }

  /** The parts are well formed, and their text is not too long to be sent. */
  ghost predicate Sendable(cmd: Bytestring, uri: Bytestring, fs: seq<Field>, max: nat) {
    WellFormed(cmd, uri, fs, max) && |RequestText(cmd, uri, fs)| <= SPRINTF_LIMIT
  }

  /** A simple request, whatever its parts hold, is sent and read back as what was asked for if and only if its parts
      are well formed and its text fits. */
  lemma {:induction false} SimpleReadsBack(cmd: Bytestring, uri: Bytestring, fs: seq<Field>, max: nat, tail: Bytestring)
    ensures var req := Sprintf(StartLine(cmd, uri) + CString(Block(fs)));
      Arrives(req, tail, max, cmd, uri, fs) <==> Sendable(cmd, uri, fs, max)
  {
    var req := Sprintf(StartLine(cmd, uri) + CString(Block(fs)));
    if Arrives(req, tail, max, cmd, uri, fs) {
      ReadBackWellFormed(req.value + tail, max, |req.value|, cmd, uri, fs);
    }
    if WellFormed(cmd, uri, fs, max) {
      WholeStrings(cmd, uri, fs);
      PrintThenParse(cmd, uri, fs, max, tail);
    }
  }

  function MoveFields(to: Bytestring, overwrite: bool): seq<Field> {
    [(DESTINATION, to), (OVERWRITE, [if overwrite then 84 else 70])]
  }

  lemma {:induction false} MoveBlock(to: Bytestring, overwrite: bool, fs: seq<Field>)
    requires 0 !in to
    ensures Block(MoveFields(to, overwrite) + fs) == MoveLines(to, overwrite) + Block(fs)
  {
    var own := MoveFields(to, overwrite);
    CStringWhole(to);
    PrintAppend(own, fs);
    PrintAppend([own[0]], [own[1]]);
    PrintSingle(own[0]);
    PrintSingle(own[1]);
    assert own == [own[0]] + [own[1]];
    assert PrintField(false, own[0]) + PrintField(false, own[1]) == MoveLines(to, overwrite);
    Reassociate(PrintFields(false, own), PrintFields(false, fs), [LF]);
  }

  lemma {:induction false} MoveText(from: Bytestring, to: Bytestring, overwrite: bool, fs: seq<Field>)
    requires WellFormedToken(from) && WellFormedValue(to)
    requires forall k :: 0 <= k < |fs| ==> WellFormedField(fs[k])
    ensures StartLine(MOVE, from) + MoveLines(to, overwrite) + CString(Block(fs)) ==
      RequestText(MOVE, from, MoveFields(to, overwrite) + fs)
  {
    WholeStrings(MOVE, from, fs);
    MoveBlock(to, overwrite, fs);
    Reassociate(StartLine(MOVE, from), MoveLines(to, overwrite), Block(fs));
  }

  /** The well-formed parts of a MOVE request. */
  lemma MoveFieldsWellFormed(from: Bytestring, to: Bytestring, overwrite: bool, fs: seq<Field>, max: nat)
    ensures WellFormed(MOVE, from, MoveFields(to, overwrite) + fs, max) <==>
      WellFormed(MOVE, from, fs, max) && WellFormedValue(to) && |fs| + 2 <= max
  {
    var own := MoveFields(to, overwrite);
    var all := own + fs;
    assert WellFormedName(DESTINATION) && WellFormedField(own[1]) && WellFormedToken(MOVE);
    assert all[0] == own[0] && all[1] == own[1] && forall k :: 0 <= k < |fs| ==> all[k + 2] == fs[k];
  }

  /** A MOVE request is sent and read back, with its destination and its flag in front of the other headers, if and only
      if all its parts are well formed, there is room for two headers more, and its text fits. */
  lemma {:induction false} MoveReadsBack(from: Bytestring, to: Bytestring, overwrite: bool, fs: seq<Field>, max: nat,
                          tail: Bytestring)
    ensures var req := Sprintf(StartLine(MOVE, from) + MoveLines(to, overwrite) + CString(Block(fs)));
      Arrives(req, tail, max, MOVE, from, MoveFields(to, overwrite) + fs) <==>
      Sendable(MOVE, from, MoveFields(to, overwrite) + fs, max)
  {
    var req := Sprintf(StartLine(MOVE, from) + MoveLines(to, overwrite) + CString(Block(fs)));
    var all := MoveFields(to, overwrite) + fs;
    if Arrives(req, tail, max, MOVE, from, all) {
      ReadBackWellFormed(req.value + tail, max, |req.value|, MOVE, from, all);
    }
    if WellFormed(MOVE, from, all, max) {
      MoveFieldsWellFormed(from, to, overwrite, fs, max);
      MoveText(from, to, overwrite, fs);
      PrintThenParse(MOVE, from, all, max, tail);
    }
  }

  // ---- Content-Length ----

  lemma {:induction false} LengthBlock(length: nat, fs: seq<Field>)
    ensures Block([(CONTENT_LENGTH, Decimal(length))] + fs) == LengthLine(length) + Block(fs)
  {
    var own := (CONTENT_LENGTH, Decimal(length));
    PrintAppend([own], fs);
    PrintSingle(own);
    Reassociate(PrintField(false, own), PrintFields(false, fs), [LF]);
  }

  lemma {:induction false} LengthText(cmd: Bytestring, uri: Bytestring, length: nat, fs: seq<Field>)
    requires WellFormedToken(cmd) && WellFormedToken(uri) && forall k :: 0 <= k < |fs| ==> WellFormedField(fs[k])
    ensures StartLine(cmd, uri) + LengthLine(length) + CString(Block(fs)) ==
      RequestText(cmd, uri, [(CONTENT_LENGTH, Decimal(length))] + fs)
  {
    WholeStrings(cmd, uri, fs);
    LengthBlock(length, fs);
    Reassociate(StartLine(cmd, uri), LengthLine(length), Block(fs));
  }

  lemma LengthFieldWellFormed(cmd: Bytestring, uri: Bytestring, length: nat, fs: seq<Field>, max: nat)
    ensures WellFormed(cmd, uri, [(CONTENT_LENGTH, Decimal(length))] + fs, max) <==>
      WellFormed(cmd, uri, fs, max) && |fs| + 1 <= max
  {
    var own := (CONTENT_LENGTH, Decimal(length));
    var all := [own] + fs;
    DecimalDigits(length);
    assert WellFormedField(own);
    assert all[0] == own && forall k :: 0 <= k < |fs| ==> all[k + 1] == fs[k];
  }

  /** A request with a body is sent and read back, with its length in front of the other headers, if and only if its
      parts are well formed, there is room for one header more, and its text fits; and the digits scan to the length. */
  lemma {:induction false} PostReadsBack(cmd: Bytestring, uri: Bytestring, length: nat, fs: seq<Field>, max: nat,
                          tail: Bytestring)
    ensures var req := Sprintf(StartLine(cmd, uri) + LengthLine(length) + CString(Block(fs)));
      Arrives(req, tail, max, cmd, uri, [(CONTENT_LENGTH, Decimal(length))] + fs) <==>
      Sendable(cmd, uri, [(CONTENT_LENGTH, Decimal(length))] + fs, max)
    ensures ParseInt(Decimal(length) + [LF], 0) == Ok(|Decimal(length)|, length)
  {
    var req := Sprintf(StartLine(cmd, uri) + LengthLine(length) + CString(Block(fs)));
    var all := [(CONTENT_LENGTH, Decimal(length))] + fs;
    if Arrives(req, tail, max, cmd, uri, all) {
      ReadBackWellFormed(req.value + tail, max, |req.value|, cmd, uri, all);
    }
    if WellFormed(cmd, uri, all, max) {
      LengthFieldWellFormed(cmd, uri, length, fs, max);
      LengthText(cmd, uri, length, fs);
      PrintThenParse(cmd, uri, all, max, tail);
    }
    DecimalReadsBack(Decimal(length) + [LF], 0, length);
  }
}

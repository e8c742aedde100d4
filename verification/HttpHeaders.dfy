/** The header list of a response: names in upper case, sorted, searched by bisection. */
module HttpHeaders {
  import opened Bytes
  import opened HttpScan
  import opened HttpParse
  import opened HttpPrint
  import opened HttpReply

  /** The order of `std::pair`. */
  predicate PairLess(a: Field, b: Field) {
    Less(a.0, b.0) || (a.0 == b.0 && Less(a.1, b.1))
  }

  ghost predicate Sorted(hs: seq<Field>) {
    forall i, j :: 0 <= i < j < |hs| ==> !PairLess(hs[j], hs[i])
  }

  /** `toupper` in the C locale. */
  function Upper(b: byte): byte {
    if 97 <= b <= 122 then b - 32 else b
  }

  predicate Letter(b: byte) { 65 <= b <= 90 || 97 <= b <= 122 }

  /** The same character, or the same letter in the other case. */
  predicate SameButCase(a: byte, b: byte) {
    a == b || (Letter(a) && Letter(b) && (a == b + 32 || b == a + 32))
  }

  /** No lower-case letter. */
  predicate Raised(s: Bytestring) {
    forall k :: 0 <= k < |s| ==> !(97 <= s[k] <= 122)
  }

  predicate SameName(s: Bytestring, t: Bytestring) {
    |s| == |t| && forall k :: 0 <= k < |s| ==> SameButCase(s[k], t[k])
  }

  function UpperName(s: Bytestring): (r: Bytestring)
    ensures |r| == |s| && forall k :: 0 <= k < |s| ==> r[k] == Upper(s[k])
  {
    seq(|s|, k requires 0 <= k < |s| => Upper(s[k]))
  }

  function UpperNames(fields: seq<Field>): (hs: seq<Field>)
    ensures |hs| == |fields| && forall k :: 0 <= k < |fields| ==> hs[k] == (UpperName(fields[k].0), fields[k].1)
  {
    seq(|fields|, k requires 0 <= k < |fields| => (UpperName(fields[k].0), fields[k].1))
  }

  /** What `ReadAnswer` makes of the parsed fields: some order of the upper-cased pairs, sorted. */
  ghost predicate Collected(hs: seq<Field>, fields: seq<Field>) {
    Sorted(hs) && multiset(hs) == multiset(UpperNames(fields))
  }

  lemma PairLessTransitive(a: Field, b: Field, c: Field)
    requires !PairLess(b, a) && PairLess(b, c)
    ensures PairLess(a, c)
  {
    LessTotal(a.0, b.0);
    LessTotal(a.1, b.1);
    LessTotal(b.0, c.0);
    if Less(a.0, b.0) {
      if Less(b.0, c.0) {
        LessTransitive(a.0, b.0, c.0);
      }
    } else {
      if b.0 == c.0 && Less(a.1, b.1) {
        LessTransitive(a.1, b.1, c.1);
      }
    }
  }

  /** `std::lower_bound`: the first place whose pair is not below the key. */
  method LowerBound(hs: seq<Field>, key: Field) returns (first: nat)
    requires Sorted(hs)
    ensures first <= |hs|
    ensures forall k :: 0 <= k < first ==> PairLess(hs[k], key)
    ensures forall k :: first <= k < |hs| ==> !PairLess(hs[k], key)
  {
    first := 0;
    var count := |hs|;
    while count > 0
      invariant 0 <= count && first + count <= |hs|
      invariant forall k :: 0 <= k < first ==> PairLess(hs[k], key)
      invariant forall k :: first + count <= k < |hs| ==> !PairLess(hs[k], key)
    {
      var step := count / 2;
      var mid := first + step;
      if PairLess(hs[mid], key) {
        forall k | 0 <= k < mid ensures PairLess(hs[k], key) { PairLessTransitive(hs[k], hs[mid], key); }
        first, count := mid + 1, count - step - 1;
      } else {
        forall k | mid < k < |hs| ensures !PairLess(hs[k], key) {
          if PairLess(hs[k], key) {
            PairLessTransitive(hs[mid], hs[k], key);
          }
        }
        count := step;
      }
    }
  }

  /** `GetHeader` finds a header if and only if there is one of that name, and then the least of its values. */
  method GetHeader(hs: seq<Field>, name: Bytestring) returns (r: Option<Bytestring>)
    requires Sorted(hs)
    ensures r.Some? <==> exists k :: 0 <= k < |hs| && hs[k].0 == name
    ensures r.Some? ==> (name, r.value) in hs
    ensures r.Some? ==> forall k :: 0 <= k < |hs| && hs[k].0 == name ==> !Less(hs[k].1, r.value)
  {
    var first := LowerBound(hs, (name, []));
    forall k | 0 <= k < |hs| && hs[k].0 == name ensures k >= first {
      NotBelowEmpty(hs[k].1);
      LessIrreflexive(name);
    }
    if first < |hs| && hs[first].0 == name {
      forall k | first < k < |hs| && hs[k].0 == name ensures !Less(hs[k].1, hs[first].1) {
        assert !PairLess(hs[k], hs[first]);
      }
      LessIrreflexive(hs[first].1);
      return Some(hs[first].1);
    }
    forall k | 0 <= k < |hs| ensures hs[k].0 != name {
      if hs[k].0 == name {
        assert k > first;
        BehindAnother(hs[first], hs[k], name);
      }
    }
    return None;
  }

  lemma NotBelowEmpty(v: Bytestring)
    ensures !Less(v, [])
  {
  }

  /** A pair that is not below `(name, "")` and has another name is above every pair of that name. */
  lemma BehindAnother(a: Field, b: Field, name: Bytestring)
    requires !PairLess(a, (name, [])) && a.0 != name && b.0 == name
    ensures PairLess(b, a)
  {
    LessTotal(a.0, name);
  }

  /** Callers have to ask in upper case: a header is found if and only if the name asked for is the upper-case form of
      the name of a field received. */
  lemma {:induction false} FoundExactly(hs: seq<Field>, fields: seq<Field>, name: Bytestring)
    requires Collected(hs, fields)
    ensures (exists k :: 0 <= k < |hs| && hs[k].0 == name) <==>
      exists k :: 0 <= k < |fields| && UpperName(fields[k].0) == name
  {
    var us := UpperNames(fields);
    if k :| 0 <= k < |hs| && hs[k].0 == name {
      assert hs[k] in multiset(us);
      var j :| 0 <= j < |us| && us[j] == hs[k];
    }
    if k :| 0 <= k < |fields| && UpperName(fields[k].0) == name {
      assert us[k] in multiset(hs);
      var j :| 0 <= j < |hs| && hs[j] == us[k];
    }
  }

  lemma {:induction false} UpperNameExactly(s: Bytestring, t: Bytestring)
    ensures UpperName(s) == t <==> Raised(t) && SameName(s, t)
  {
    if Raised(t) && SameName(s, t) {
      forall k | 0 <= k < |s| ensures UpperName(s)[k] == t[k] {
        assert SameButCase(s[k], t[k]) && !(97 <= t[k] <= 122);
      }
    }
  }

  /** In the callers' terms: found if and only if asked for without lower-case letters, and received in any case. */
  lemma {:induction false} FoundInAnyCase(hs: seq<Field>, fields: seq<Field>, name: Bytestring)
    requires Collected(hs, fields)
    ensures (exists k :: 0 <= k < |hs| && hs[k].0 == name) <==>
      Raised(name) && exists k :: 0 <= k < |fields| && SameName(fields[k].0, name)
  {
    FoundExactly(hs, fields, name);
    forall k | 0 <= k < |fields|
      ensures UpperName(fields[k].0) == name <==> Raised(name) && SameName(fields[k].0, name)
    {
      UpperNameExactly(fields[k].0, name);
    }
  }

  /** So a name with a lower-case letter is never found. */
  lemma {:induction false} LowerCaseNeverFound(hs: seq<Field>, fields: seq<Field>, name: Bytestring, i: nat)
    requires Collected(hs, fields) && i < |name| && 97 <= name[i] <= 122
    ensures forall k :: 0 <= k < |hs| ==> hs[k].0 != name
  {
    FoundExactly(hs, fields, name);
  }

  // ---- From the wire to the list ----

  /** The pair that `ReadAnswer` makes of a parsed header; a continuation line has the empty name. */
  function FieldOf(s: Bytestring, h: Header): Field {
    (if h.name.Some? then Text(s, h.name.value) else [], Text(s, h.value))
  }

  function Text(s: Bytestring, w: Slice): Bytestring {
    if w.start + w.len <= |s| then Content(s, w) else []
  }

  function FieldsOf(s: Bytestring, hs: seq<Header>): (fs: seq<Field>)
    ensures |fs| == |hs| && forall k :: 0 <= k < |hs| ==> fs[k] == FieldOf(s, hs[k])
  {
    seq(|hs|, k requires 0 <= k < |hs| => FieldOf(s, hs[k]))
  }

  /** A response as a server prints it, parsed and collected: a name is in the list if and only if it is the upper-case
      form of the name of a field that the server printed, and the list holds the values under those names. */
  lemma {:induction false} PrintedIsFound(crlf: bool, minor: nat, status: nat, msg: Bytestring, fs: seq<Field>,
                          max: nat, tail: Bytestring, hs: seq<Field>, name: Bytestring)
    requires WellFormedReply(msg, fs, max)
    requires var s := ReplyText(crlf, minor, status, msg, fs) + tail;
      ParseResponse(s, max).Ok? ==> Collected(hs, FieldsOf(s, ParseResponse(s, max).val.headers))
    ensures (exists k :: 0 <= k < |hs| && hs[k].0 == name) <==> exists k :: 0 <= k < |fs| && UpperName(fs[k].0) == name
    ensures multiset(hs) == multiset(UpperNames(fs))
  {
    var s := ReplyText(crlf, minor, status, msg, fs) + tail;
    PrintThenParseReply(crlf, minor, status, msg, fs, max, tail);
    ShownFields(s, ParseResponse(s, max).val.headers, fs);
    FoundExactly(hs, fs, name);
  }

  lemma ShownFields(s: Bytestring, headers: seq<Header>, fs: seq<Field>)
    requires ShowsAll(s, headers, fs)
    ensures FieldsOf(s, headers) == fs
  {
    forall k | 0 <= k < |fs| ensures FieldsOf(s, headers)[k] == fs[k] {
      assert Shows(s, headers[k], fs[k]);
    }
  }
}

/** What the HTTP parser has set when it returns, in the grammar's terms: on failure, everything that stands in the
    buffer before the part that fails. */
module HttpOuts {
  import opened Bytes
  import opened HttpScan
  import Spec = HttpParse
  import opened HttpGrammar
  import opened HttpParser

  /** The token at `i`, if there is one. */
  ghost predicate SomeToken(s: Bytestring, i: nat, o: Option<Slice>) {
    match o
    case Some(w) => w.start == i && TokenAt(s, i, i + w.len)
    case None => forall n: nat :: !TokenAt(s, i, n)
  }

  /** The version at `i`, if there is one, and else -1. */
  ghost predicate SomeVersion(s: Bytestring, i: nat, v: int) {
    if v >= 0 then exists j: nat :: VersionAt(s, i, j, v)
    else v == -1 && forall j: nat, u: nat :: !VersionAt(s, i, j, u)
  }

  ghost predicate NoLine(s: Bytestring, i: nat, first: bool) {
    forall n: nat, h :: !LineAt(s, i, first, n, h)
  }

  /** Header lines from `i` on, up to the first place without one, or to the limit. */
  ghost predicate LinesAt(s: Bytestring, i: nat, num: nat, max: nat, hs: seq<Header>)
    decreases |hs|
  {
    if hs == [] then num == max || NoLine(s, i, num == 0)
    else
      && num != max && LineAt(s, i, num == 0, LineStop(s, hs[0]), hs[0])
      && LinesAt(s, LineStop(s, hs[0]), num + 1, max, hs[1..])
  }

  /** The line end at `i`, if there is one, and the header lines behind it. */
  ghost predicate SomeLines(s: Bytestring, i: nat, max: nat, hs: seq<Header>) {
    if exists k: nat :: EolAt(s, i, k) then exists k: nat :: EolAt(s, i, k) && LinesAt(s, k, 0, max, hs) else hs == []
  }

  /** The version and the headers of a request, as far as they are there. */
  ghost predicate TailSet(s: Bytestring, i: nat, max: nat, v: int, hs: seq<Header>) {
    SomeVersion(s, i, v) && (v < 0 ==> hs == []) &&
    forall j: nat :: v >= 0 && VersionAt(s, i, j, v) ==> SomeLines(s, j, max, hs)
  }

  /** The method. */
  lemma {:induction false} TokenSet(s: Bytestring, i: nat)
    requires i <= |s|
    ensures SomeToken(s, i, MethodOut(s, i))
  {
    match ScanToken(s, i, i)
    case Ok(n, w) => TokenExactly(s, i, n, w);
    case _ =>
      forall n: nat ensures !TokenAt(s, i, n) {
        if TokenAt(s, i, n) {
          TokenExactly(s, i, n, Slice(i, n - i));
        }
      }
  }

  /** The path is the token behind that of the method. */
  lemma {:induction false} PathIsSet(s: Bytestring, i: nat)
    requires i <= |s|
    ensures match MethodOut(s, i)
      case Some(m) => SomeToken(s, m.start + m.len + 1, PathOut(s, i))
      case None => PathOut(s, i) == None
  {
    var m := ScanToken(s, i, i);
    if m.Ok? {
      TokenSet(s, m.next + 1);
    }
  }

  /** The version. */
  lemma {:induction false} VersionSet(s: Bytestring, i: nat)
    requires i <= |s|
    ensures SomeVersion(s, i, MinorOut(s, i))
    ensures forall j: nat, v: nat :: VersionAt(s, i, j, v) <==> Spec.ParseVersion(s, i) == Ok(j, v)
  {
    forall j: nat, v: nat ensures VersionAt(s, i, j, v) <==> Spec.ParseVersion(s, i) == Ok(j, v) {
      VersionExactly(s, i, j, v);
    }
  }

  lemma LinesCons(s: Bytestring, i: nat, num: nat, max: nat, h: Header, hs: seq<Header>)
    requires num != max && LineAt(s, i, num == 0, LineStop(s, h), h) && LinesAt(s, LineStop(s, h), num + 1, max, hs)
    ensures LinesAt(s, i, num, max, [h] + hs)
  {
    assert ([h] + hs)[1..] == hs;
  }

  lemma ReadOne(s: Bytestring, i: nat, num: nat, max: nat)
    requires i < |s| && s[i] != CR && s[i] != LF && num != max && Spec.ParseLine(s, i, num == 0).Ok?
    ensures var line := Spec.ParseLine(s, i, num == 0);
      && HeadersRead(s, i, num, max) == [line.val] + HeadersRead(s, line.next, num + 1, max)
      && line.next == LineStop(s, line.val) && LineAt(s, i, num == 0, line.next, line.val)
  {
    LineIs(s, i, num == 0, Spec.ParseLine(s, i, num == 0).val);
  }

  /** The headers read are the lines that are there. */
  lemma {:induction false} LinesSet(s: Bytestring, i: nat, num: nat, max: nat)
    requires i <= |s|
    ensures LinesAt(s, i, num, max, HeadersRead(s, i, num, max))
    decreases |s| - i
  {
    if i == |s| || s[i] == CR || s[i] == LF || num == max || !Spec.ParseLine(s, i, num == 0).Ok? {
      if num != max {
        NoLineThere(s, i, num == 0);
      }
    } else {
      var line := Spec.ParseLine(s, i, num == 0);
      ReadOne(s, i, num, max);
      LinesSet(s, line.next, num + 1, max);
      LinesCons(s, i, num, max, line.val, HeadersRead(s, line.next, num + 1, max));
    }
  }

  lemma {:induction false} NoLineThere(s: Bytestring, i: nat, first: bool)
    requires i <= |s| && (i < |s| && s[i] != CR && s[i] != LF ==> !Spec.ParseLine(s, i, first).Ok?)
    ensures NoLine(s, i, first)
  {
    forall n: nat, h ensures !LineAt(s, i, first, n, h) {
      if LineAt(s, i, first, n, h) {
        LineStopsThere(s, i, first, n, h);
        LineExactly(s, i, first, n, h);
      }
    }
  }

  /** What is set behind the path. */
  lemma {:induction false} TailIsSet(s: Bytestring, i: nat, max: nat)
    requires i <= |s|
    ensures TailSet(s, i, max, MinorOut(s, i), TailOut(s, i, max))
  {
    VersionSet(s, i);
    match Spec.ParseVersion(s, i)
    case Ok(j, v) => LinesBehind(s, j, max);
    case _ =>
  }

  lemma {:induction false} LinesBehind(s: Bytestring, j: nat, max: nat)
    requires j < |s|
    ensures SomeLines(s, j, max, match LineEnd(s, j, j) case Ok(k, _) => HeadersRead(s, k, 0, max) case _ => [])
  {
    match LineEnd(s, j, j)
    case Ok(k, w) =>
      EolExactly(s, j, j, k, w);
      LinesSet(s, k, 0, max);
    case _ =>
      forall k: nat ensures !EolAt(s, j, k) { EolExactly(s, j, j, k, Slice(j, 0)); }
  }
}

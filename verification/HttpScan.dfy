/** The token scans of the HTTP parser: their one-byte-at-a-time specifications, and the unrolled and the vectorised
    loops that the parser runs instead. */
module HttpScan {
  import opened Bytes

  /** A run of bytes of the parsed buffer, as a pointer and a length. */
  datatype Slice = Slice(start: nat, len: nat)

  /** `Ok` carries the position behind what was read; `Partial` is the return code -2 and `Bad` the return code -1. */
  datatype Result<+T> = Ok(next: nat, val: T) | Partial | Bad {
    predicate IsFailure() { !Ok? }

    function PropagateFailure<U>(): Result<U>
      requires !Ok?
    {
      if Partial? then Partial else Bad
    }

    function Extract(): (nat, T)
      requires Ok?
    {
      (next, val)
    }

    /** The value a parser returns: the number of bytes consumed, -2 or -1. */
    function Code(): int {
      match this
      case Ok(n, _) => n
      case Partial => -2
      case Bad => -1
    }
  }

  function Content(s: Bytestring, w: Slice): Bytestring
    requires w.start + w.len <= |s|
  {
    s[w.start..w.start + w.len]
  }

  /** `IS_PRINTABLE_ASCII` */
  predicate Printable(b: byte) { 32 <= b < 127 }

  /** Bytes that end a line's text: control characters other than HT, and DEL. */
  predicate EndsText(b: byte) { (b < 32 && b != HT) || b == DEL }

  // ---- Specifications ----

  /** `ADVANCE_TOKEN`, one byte at a time, for a token that began at `start`. */
  function ScanToken(s: Bytestring, start: nat, i: nat): (r: Result<Slice>)
    requires start <= i <= |s|
    ensures r.Ok? ==> i <= r.next < |s| && s[r.next] == SP && r.val.start == start && start + r.val.len == r.next
    decreases |s| - i
  {
    if i == |s| then Partial
    else if s[i] == SP then Ok(i, Slice(start, i - start))
    else if s[i] < 32 || s[i] == DEL then Bad
    else ScanToken(s, start, i + 1)
  }

  /** The end of a line that starts at `i`: CR LF or LF. */
  function LineEnd(s: Bytestring, start: nat, i: nat): (r: Result<Slice>)
    requires start <= i < |s|
    ensures r.Ok? ==> i < r.next <= |s| && r.val.start == start && start + r.val.len < r.next
  {
    if s[i] == CR then
      if i + 1 == |s| then Partial
      else if s[i + 1] == LF then Ok(i + 2, Slice(start, i - start))
      else Bad
    else if s[i] == LF then Ok(i + 1, Slice(start, i - start))
    else Bad
  }

  /** `get_token_to_eol`, one byte at a time, for a text that began at `start`. */
  function ScanText(s: Bytestring, start: nat, i: nat): (r: Result<Slice>)
    requires start <= i <= |s|
    ensures r.Ok? ==> i < r.next <= |s| && r.val.start == start && start + r.val.len < r.next
    decreases |s| - i
  {
    if i == |s| then Partial
    else if EndsText(s[i]) then LineEnd(s, start, i)
    else ScanText(s, start, i + 1)
  }

  /** The header-name loop, one byte at a time: `char` is signed, so bytes from 128 up compare below a space. */
  function ScanName(s: Bytestring, i: nat): (r: Result<()>)
    requires i <= |s|
    ensures r.Ok? ==> i <= r.next < |s| && s[r.next] == COLON
    decreases |s| - i
  {
    if i == |s| then Partial
    else if s[i] == COLON then Ok(i, ())
    else if Signed(s[i]) < 32 then Bad
    else ScanName(s, i + 1)
  }

  // ---- What the scans find, said without a scan ----

  /** A token is found exactly when a space follows bytes none of which is a space, a control character or DEL. */
  lemma {:induction false} TokenFound(s: Bytestring, start: nat, i: nat, n: nat)
    requires start <= i <= |s| && start <= n
    ensures ScanToken(s, start, i) == Ok(n, Slice(start, n - start)) <==>
      i <= n < |s| && s[n] == SP && forall k :: i <= k < n ==> s[k] > 32 && s[k] != DEL
    decreases |s| - i
  {
    if i < |s| && s[i] > 32 && s[i] != DEL {
      TokenFound(s, start, i + 1, n);
    }
  }

  /** A text is found exactly when a line end follows bytes none of which ends a text. */
  lemma {:induction false} TextFound(s: Bytestring, start: nat, i: nat, n: nat, end: nat)
    requires start <= i <= |s| && start <= end
    ensures ScanText(s, start, i) == Ok(n, Slice(start, end - start)) <==>
      && i <= end < |s|
      && (forall k :: i <= k < end ==> !EndsText(s[k]))
      && ((s[end] == LF && n == end + 1) || (s[end] == CR && end + 1 < |s| && s[end + 1] == LF && n == end + 2))
    decreases |s| - i
  {
    if i < |s| && !EndsText(s[i]) {
      TextFound(s, start, i + 1, n, end);
    }
  }

  /** A name is found exactly when a colon follows bytes from 32 to 127 none of which is a colon. */
  lemma {:induction false} NameFound(s: Bytestring, i: nat, n: nat)
    requires i <= |s|
    ensures (ScanName(s, i).Ok? && ScanName(s, i).next == n) <==>
      i <= n < |s| && s[n] == COLON && forall k :: i <= k < n ==> 32 <= s[k] < 128 && s[k] != COLON
    decreases |s| - i
  {
    if i < |s| && s[i] != COLON && Signed(s[i]) >= 32 {
      NameFound(s, i + 1, n);
    }
  }

  /** A scan passes over bytes that do not end it. */
  lemma {:induction false} TokenSkips(s: Bytestring, start: nat, i: nat, j: nat)
    requires start <= i <= j <= |s|
    requires forall k :: i <= k < j ==> !(s[k] <= 32 || s[k] == DEL)
    ensures ScanToken(s, start, i) == ScanToken(s, start, j)
    decreases j - i
  {
    if i < j {
      TokenSkips(s, start, i + 1, j);
    }
  }

  lemma {:induction false} TextSkips(s: Bytestring, start: nat, i: nat, j: nat)
    requires start <= i <= j <= |s|
    requires forall k :: i <= k < j ==> !EndsText(s[k])
    ensures ScanText(s, start, i) == ScanText(s, start, j)
    decreases j - i
  {
    if i < j {
      TextSkips(s, start, i + 1, j);
    }
  }

  lemma {:induction false} NameSkips(s: Bytestring, i: nat, j: nat)
    requires i <= j <= |s|
    requires forall k :: i <= k < j ==> s[k] != COLON && Signed(s[k]) >= 32
    ensures ScanName(s, i) == ScanName(s, j)
    decreases j - i
  {
    if i < j {
      NameSkips(s, i + 1, j);
    }
  }

  // ---- The loops of the scalar build ----

  /** One step of the manually unrolled loop; it does nothing once a byte was not printable. */
  method DoIt(s: Bytestring, buf: nat, stopped: bool) returns (buf': nat, stopped': bool)
    requires buf < |s|
    ensures if stopped || !Printable(s[buf]) then buf' == buf && stopped' else buf' == buf + 1 && !stopped'
  {
    if stopped || !Printable(s[buf]) {
      return buf, true;
    }
    return buf + 1, false;
  }

  /** `get_token_to_eol` of the scalar build: eight bytes a round, then byte by byte. */
  method GetTokenToEol(s: Bytestring, tokenStart: nat) returns (r: Result<Slice>)
    requires tokenStart <= |s|
    ensures r == ScanText(s, tokenStart, tokenStart)
  {
    var buf := tokenStart;
    var found := false;
    while !found && |s| - buf >= 8
      invariant tokenStart <= buf <= |s|
      invariant ScanText(s, tokenStart, tokenStart) == ScanText(s, tokenStart, buf)
      invariant found ==> buf < |s| && EndsText(s[buf])
      decreases !found, |s| - buf
    {
      var stop: bool;
      ghost var from := buf;
      buf, stop := DoIt(s, buf, false);
      buf, stop := DoIt(s, buf, stop);
      buf, stop := DoIt(s, buf, stop);
      buf, stop := DoIt(s, buf, stop);
      buf, stop := DoIt(s, buf, stop);
      buf, stop := DoIt(s, buf, stop);
      buf, stop := DoIt(s, buf, stop);
      buf, stop := DoIt(s, buf, stop);
      TextSkips(s, tokenStart, from, buf);
      if !stop {
        continue;
      }
      if EndsText(s[buf]) {
        found := true;
      } else {
        buf := buf + 1;
      }
    }
    while !found
      invariant tokenStart <= buf <= |s|
      invariant ScanText(s, tokenStart, tokenStart) == ScanText(s, tokenStart, buf)
      invariant found ==> buf < |s| && EndsText(s[buf])
      decreases !found, |s| - buf
    {
      if buf == |s| {
        return Partial;
      }
      if !Printable(s[buf]) && EndsText(s[buf]) {
        found := true;
      } else {
        buf := buf + 1;
      }
    }
    r := FoundCtl(s, tokenStart, buf);
  }

  /** What follows the label `FOUND_CTL`. */
  method FoundCtl(s: Bytestring, tokenStart: nat, ctl: nat) returns (r: Result<Slice>)
    requires tokenStart <= ctl < |s|
    ensures r == LineEnd(s, tokenStart, ctl)
  {
    var buf := ctl;
    if s[buf] == CR {
      buf := buf + 1;
      if buf == |s| {
        return Partial;
      }
      buf := buf + 1;
      if s[buf - 1] != LF {
        return Bad;
      }
      return Ok(buf, Slice(tokenStart, buf - 2 - tokenStart));
    } else if s[buf] == LF {
      buf := buf + 1;
      return Ok(buf, Slice(tokenStart, buf - 1 - tokenStart));
    } else {
      return Bad;
    }
  }

  /** The loop of `ADVANCE_TOKEN`, which the block scan of the vectorised build may already have moved to `from`. */
  method FinishToken(s: Bytestring, tokStart: nat, from: nat) returns (r: Result<Slice>)
    requires tokStart <= from <= |s|
    ensures r == ScanToken(s, tokStart, from)
  {
    var buf := from;
    while true
      invariant tokStart <= buf <= |s|
      invariant ScanToken(s, tokStart, from) == ScanToken(s, tokStart, buf)
      decreases |s| - buf
    {
      if buf == |s| {
        return Partial;
      }
      if s[buf] == SP {
        break;
      } else if !Printable(s[buf]) {
        if s[buf] < 32 || s[buf] == DEL {
          return Bad;
        }
      }
      buf := buf + 1;
    }
    return Ok(buf, Slice(tokStart, buf - tokStart));
  }

  /** `ADVANCE_TOKEN` of the scalar build. */
  method AdvanceToken(s: Bytestring, tokStart: nat) returns (r: Result<Slice>)
    requires tokStart <= |s|
    ensures r == ScanToken(s, tokStart, tokStart)
  {
    r := FinishToken(s, tokStart, tokStart);
  }

  /** The loop over a header name. */
  method FinishName(s: Bytestring, from: nat) returns (r: Result<()>)
    requires from <= |s|
    ensures r == ScanName(s, from)
  {
    var buf := from;
    while true
      invariant from <= buf <= |s|
      invariant ScanName(s, from) == ScanName(s, buf)
      decreases |s| - buf
    {
      if buf == |s| {
        return Partial;
      }
      if s[buf] == COLON {
        break;
      } else if Signed(s[buf]) < 32 {
        return Bad;
      }
      buf := buf + 1;
    }
    return Ok(buf, ());
  }
}

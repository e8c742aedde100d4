/** Moving a response body: reading it with the head, preloading part of it, streaming it through a callback, and
    splicing it through a pipe to another socket. All of them share the read buffer and the counter of bytes still
    owed. */
module HttpBody {
  import opened Bytes

  /** 16 * 1448 */
  const SPLICE_FULL_HINT := 23168
  /** 1 << 30 */
  const MAX_SPLICE_AT_ONCE := 0x4000_0000

  /** How an operation ends: normally, with an exception blamed on the server, with one blamed on the receiver of the
      body, on a failed assertion, or not yet, for lack of further results from the system. */
  datatype Ending = Finished | ServerError | ClientError | Aborted | Waiting

  /** What a call of `splice` comes back with. */
  datatype SpliceResult = Moved(n: nat) | Again | Interrupted | Failed

  /** The results that end a transfer: an error other than "would block" and "interrupted", and the end of the data. */
  predicate Breaks(r: SpliceResult) { r == Failed || r == Moved(0) }

  /** One read from the connection: how many bytes it asked for, and whether it got them. */
  datatype Read = Read(asked: nat, ok: bool)

  /** The reads that an operation adds to those before: none asks for more than `limit`, and none fails but the last one
      of an operation that failed. */
  ghost predicate Reads(before: seq<Read>, after: seq<Read>, limit: nat, failed: bool) {
    && before <= after
    && (failed ==> |before| < |after|)
    && forall k :: |before| <= k < |after| ==>
         after[k].asked <= limit && (after[k].ok <==> !(failed && k == |after| - 1))
  }

  function Min(a: nat, b: nat): nat { if a <= b then a else b }

  /** One call of the data callback: the chunk it was shown, and how much of it was taken. */
  datatype Call = Call(chunk: Bytestring, taken: nat)

  /** A callback decides by all its calls so far and by the chunk it is shown. That is every function object: what else
      it depends on in a run is fixed by the run, and its calls so far tell which call this is. */
  type Callback = (seq<Call>, Bytestring) -> nat

  function Taken(calls: seq<Call>): Bytestring
    requires forall k :: 0 <= k < |calls| ==> calls[k].taken <= |calls[k].chunk|
    decreases |calls|
  {
    if calls == [] then []
    else Taken(calls[..|calls| - 1]) + calls[|calls| - 1].chunk[..calls[|calls| - 1].taken]
  }

  /** The calls show the body in order, from where the callback left off, and take what the callback said. */
  ghost predicate Streamed(cb: Callback, body: Bytestring, calls: seq<Call>)
    decreases |calls|
  {
    && (forall k :: 0 <= k < |calls| ==> calls[k].taken <= |calls[k].chunk|)
    && (calls != [] ==>
          var before, last := calls[..|calls| - 1], calls[|calls| - 1];
          && Streamed(cb, body, before)
          && last.chunk != [] && Taken(before) + last.chunk <= body
          && last.taken == Min(cb(before, last.chunk), |last.chunk|))
  }

  lemma StreamedOneMore(cb: Callback, body: Bytestring, calls: seq<Call>, c: Call)
    requires Streamed(cb, body, calls) && c.chunk != [] && Taken(calls) + c.chunk <= body
    requires c.taken == Min(cb(calls, c.chunk), |c.chunk|)
    ensures Streamed(cb, body, calls + [c]) && Taken(calls + [c]) == Taken(calls) + c.chunk[..c.taken]
  {
    var more := calls + [c];
    assert more[..|more| - 1] == calls;
  }

  /** The callback has been called and wants no more data. */
  predicate Refused(calls: seq<Call>) {
    calls != [] && calls[|calls| - 1].taken == 0
  }

  /** What the last call left of its chunk; before the first call, what was buffered. */
  function Rest(calls: seq<Call>, first: Bytestring): Bytestring
    requires forall k :: 0 <= k < |calls| ==> calls[k].taken <= |calls[k].chunk|
  {
    if calls == [] then first else calls[|calls| - 1].chunk[calls[|calls| - 1].taken..]
  }

  /** The chunk for the next call, of a callback that has not refused yet: what is left of the last one, or, if nothing
      is, one read of `limit` bytes, or of all that are owed of `total` if those are fewer. */
  ghost predicate Next(calls: seq<Call>, first: Bytestring, total: nat, limit: nat, chunk: Bytestring)
    requires forall k :: 0 <= k < |calls| ==> calls[k].taken <= |calls[k].chunk|
  {
    && !Refused(calls)
    && if Rest(calls, first) != [] then chunk == Rest(calls, first)
       else |Taken(calls)| <= total && |chunk| == Min(limit, total - |Taken(calls)|)
  }

  /** Every call gets the chunk that is next. */
  ghost predicate Shown(calls: seq<Call>, first: Bytestring, total: nat, limit: nat)
    requires forall k :: 0 <= k < |calls| ==> calls[k].taken <= |calls[k].chunk|
    decreases |calls|
  {
    calls != [] ==>
      var before := calls[..|calls| - 1];
      Shown(before, first, total, limit) && Next(before, first, total, limit, calls[|calls| - 1].chunk)
  }

  lemma ShownOneMore(calls: seq<Call>, first: Bytestring, total: nat, limit: nat, c: Call)
    requires c.taken <= |c.chunk| && forall k :: 0 <= k < |calls| ==> calls[k].taken <= |calls[k].chunk|
    requires Shown(calls, first, total, limit) && Next(calls, first, total, limit, c.chunk)
    ensures Shown(calls + [c], first, total, limit) && Rest(calls + [c], first) == c.chunk[c.taken..]
  {
    assert (calls + [c])[..|calls|] == calls;
  }

  /** What streaming starts from: the callback, the bytes of the body still to come, those gone before, those buffered,
      the number of bytes owed with these, the limit of a read, and the reads made before. */
  datatype Session = Session(cb: Callback, body: Bytestring, consumed: Bytestring, first: Bytestring, total: nat,
                             limit: nat, before: seq<Read>)

  /** The callback has made `calls` and taken `accepted`; `dropped` and `left` are the rest of the body. */
  ghost predicate Progress(cb: Callback, body: Bytestring, calls: seq<Call>, accepted: Bytestring,
                          dropped: Bytestring, left: Bytestring) {
    && Streamed(cb, body, calls) && accepted == Taken(calls)
    && (!Refused(calls) ==> dropped == [])
    && accepted + dropped + left == body
  }

  lemma {:induction false} ProgressOffer(cb: Callback, body: Bytestring, calls: seq<Call>, accepted: Bytestring,
                           buf: Bytestring, later: Bytestring, k: nat)
    requires buf != [] && !Refused(calls) && Progress(cb, body, calls, accepted, [], buf + later)
    requires k == Min(cb(calls, buf), |buf|)
    ensures Progress(cb, body, calls + [Call(buf, k)], accepted + buf[..k], [], buf[k..] + later)
  {
    OfferSplit(accepted, buf, later, k);
    StreamedOneMore(cb, body, calls, Call(buf, k));
  }

  lemma OfferSplit(accepted: Bytestring, buf: Bytestring, later: Bytestring, k: nat)
    requires k <= |buf|
    ensures accepted + buf <= accepted + [] + (buf + later)
    ensures (accepted + buf[..k]) + [] + (buf[k..] + later) == accepted + [] + (buf + later)
  {
    assert accepted + [] == accepted && (accepted + buf[..k]) + [] == accepted + buf[..k];
    assert accepted + (buf + later) == (accepted + buf) + later;
    assert buf == buf[..k] + buf[k..];
    assert buf[..k] + (buf[k..] + later) == buf + later;
  }

  lemma {:induction false} ProgressDrop(cb: Callback, body: Bytestring, calls: seq<Call>, accepted: Bytestring,
                          dropped: Bytestring, buf: Bytestring, later: Bytestring)
    requires Refused(calls) && Progress(cb, body, calls, accepted, dropped, buf + later)
    ensures Progress(cb, body, calls, accepted, dropped + buf, [] + later)
  {
    assert accepted + dropped + (buf + later) == accepted + (dropped + buf) + ([] + later);
  }

  lemma ConsumedMore(a: Bytestring, b: Bytestring, c: Bytestring, d: Bytestring)
    ensures a + (b + c) + d == a + (b + (c + d))
    ensures a + (b + []) + d == a + ((b + d) + [])
  {
    assert b + [] == b && (b + d) + [] == b + d;
  }

  class Transfer {
    /** `resp->read_buf` and `resp->ReadLeft`. */
    var readBuf: Bytestring
    var readLeft: nat
    /** What the server still sends on this connection, before it closes it. */
    var incoming: Bytestring
    /** Body bytes that have left the read buffer: accepted, dropped, drained or forwarded. */
    ghost var consumed: Bytestring
    /** The reads made so far. */
    ghost var readLog: seq<Read>
    /** All that the server sends after the head, and how much of it is the body. */
    ghost const stream: Bytestring
    ghost const bodyLength: nat

    /** No byte is lost, invented or reordered; this holds even after a failed read. */
    ghost predicate Conserved()
      reads this
    {
      consumed + readBuf + incoming == stream
    }

    /** The counters account for the whole body. */
    ghost predicate Valid()
      reads this
    {
      Conserved() && |consumed| + |readBuf| + readLeft == bodyLength
    }

    ghost predicate Drained()
      reads this
    {
      readBuf == [] && readLeft == 0
    }

    /** The response when its head has been cut off: `buffered` came along with the head. */
    constructor (buffered: Bytestring, later: Bytestring, contentLength: nat)
      requires |buffered| <= contentLength
      ensures Valid() && readBuf == buffered && incoming == later && consumed == [] && readLog == []
      ensures stream == buffered + later && bodyLength == contentLength
    {
      readBuf, incoming, consumed, readLog := buffered, later, [], [];
      readLeft := contentLength - |buffered|;
      stream, bodyLength := buffered + later, contentLength;
    }

    /** `async_read` with `transfer_exactly(n)`: all `n` bytes, or an error after some of them. */
    method AsyncRead(n: nat) returns (ok: bool)
      requires Conserved()
      modifies this`readBuf, this`incoming, this`readLog
      ensures Conserved() && readBuf + incoming == old(readBuf + incoming) && readLog == old(readLog) + [Read(n, ok)]
      ensures ok ==>
        n <= |old(incoming)| && readBuf == old(readBuf) + old(incoming[..n]) && incoming == old(incoming[n..])
    {
      var rd :| 0 <= rd <= n && rd <= |incoming|;
      var interrupted: bool := *;
      readBuf, incoming := readBuf + incoming[..rd], incoming[rd..];
      assert old(incoming) == old(incoming[..rd]) + incoming;
      assert readBuf + incoming == old(readBuf) + (old(incoming[..rd]) + incoming);
      assert consumed + (old(readBuf) + old(incoming[..rd])) + incoming == consumed + old(readBuf) + old(incoming);
      ok := rd == n && !interrupted;
      readLog := readLog + [Read(n, ok)];
    }

    /** One bounded read that is paid off the counter: the step that all the loops share. */
    method ReadSome(limit: nat) returns (ok: bool)
      requires Valid() && limit <= readLeft
      modifies this`readBuf, this`incoming, this`readLeft, this`readLog
      ensures Conserved() && readBuf + incoming == old(readBuf + incoming)
      ensures readLog == old(readLog) + [Read(limit, ok)]
      ensures ok ==> Valid() && readLeft == old(readLeft) - limit && |readBuf| == |old(readBuf)| + limit
      ensures ok ==> old(readBuf) <= readBuf
    {
      ok := AsyncRead(limit);
      if ok {
        readLeft := readLeft - limit;
      }
    }

    /** The loop of `ReadAnswer` that reads the body along with the head. It fails exactly when a read fails, and does
        not read when nothing is owed. */
    method ReadBody(maxReadTransfer: nat) returns (end: Ending)
      requires Valid() && consumed == [] && maxReadTransfer > 0
      modifies this`readBuf, this`incoming, this`readLeft, this`readLog
      ensures Conserved() && end in {Finished, ServerError}
      ensures Reads(old(readLog), readLog, maxReadTransfer, end == ServerError)
      ensures old(readLeft) == 0 ==> readLog == old(readLog)
      ensures end == Finished ==> Valid() && readLeft == 0 && bodyLength <= |stream| && readBuf == stream[..bodyLength]
    {
      while readLeft > 0
        invariant Valid() && Reads(old(readLog), readLog, maxReadTransfer, false)
        invariant old(readLeft) == 0 ==> readLeft == 0 && readLog == old(readLog)
        decreases readLeft
      {
        var ok := ReadSome(Min(readLeft, maxReadTransfer));
        if !ok {
          return ServerError;
        }
      }
      assert stream == readBuf + incoming;
      return Finished;
    }

    /** `PrelaodBytes`: afterwards the buffer holds the first `count` bytes owed, or all of them if `count` is zero or
        more than there are; it never shrinks. There is one read, for just what is missing, unless the buffer holds
        `count` bytes already; if it fails, and only then, the call fails. */
    method PreloadBytes(count: nat) returns (end: Ending)
      requires Valid()
      modifies this`readBuf, this`incoming, this`readLeft, this`readLog
      ensures Conserved() && end in {Finished, ServerError}
      ensures 0 < count <= |old(readBuf)| ==> end == Finished && readLog == old(readLog)
      ensures !(0 < count <= |old(readBuf)|) ==>
        var missing: nat := if 0 < count <= old(|readBuf| + readLeft) then count - |old(readBuf)| else old(readLeft);
        readLog == old(readLog) + [Read(missing, end == Finished)]
      ensures end == Finished ==> Valid() && old(readBuf) <= readBuf
      ensures end == Finished ==>
        var total := old(|readBuf| + readLeft);
        |readBuf| ==
          if count == 0 || count > total then total
          else if count < |old(readBuf)| then |old(readBuf)|
          else count
    {
      var len := |readBuf|;
      if len >= count && count != 0 {
        return Finished;
      }
      var target := count;
      if count == 0 || count > readLeft + len {
        target := readLeft + len;
      }
      len := target - len;
      var ok := ReadSome(len);
      end := if ok then Finished else ServerError;
    }

    /** `consume(n)` of the buffer, which stops at its end. */
    method Consume(n: nat)
      requires Valid()
      modifies this`readBuf, this`consumed
      ensures Valid()
      ensures var k := Min(n, |old(readBuf)|);
        readBuf == old(readBuf[k..]) && consumed == old(consumed) + old(readBuf[..k])
    {
      var k := Min(n, |readBuf|);
      assert readBuf == readBuf[..k] + readBuf[k..];
      assert consumed + readBuf[..k] + readBuf[k..] + incoming == consumed + readBuf + incoming;
      consumed := consumed + readBuf[..k];
      readBuf := readBuf[k..];
    }

    /** `drainRead` */
    method DrainRead() returns (data: Bytestring)
      requires Valid()
      modifies this`readBuf, this`consumed
      ensures Valid() && data == old(readBuf) && readBuf == [] && consumed == old(consumed) + data
    {
      data := readBuf;
      Consume(|readBuf|);
    }

    /** What streaming keeps: nothing is lost, the callback has been shown what it had to be shown, and the buffer is
        the next chunk, or empty with the last chunk used up. */
    ghost predicate Streaming(v: Session, calls: seq<Call>, accepted: Bytestring, dropped: Bytestring)
      reads this
    {
      && Valid() && Progress(v.cb, v.body, calls, accepted, dropped, readBuf + incoming)
      && consumed == v.consumed + (accepted + dropped) && |v.consumed| + v.total == bodyLength
      && Reads(v.before, readLog, v.limit, false)
      && (v.total == |v.first| ==> readLeft == 0 && readLog == v.before)
      && Shown(calls, v.first, v.total, v.limit)
      && (Refused(calls) || Next(calls, v.first, v.total, v.limit, readBuf) ||
          (readBuf == [] && Rest(calls, v.first) == []))
    }

    /** One call of the data callback on the whole buffer, and the consumption of what it took. */
    method Offer(cb: Callback, calls: seq<Call>, ghost accepted: Bytestring, ghost v: Session)
      returns (n: nat, calls': seq<Call>, ghost accepted': Bytestring)
      requires v.cb == cb && readBuf != [] && !Refused(calls) && Streaming(v, calls, accepted, [])
      modifies this`readBuf, this`consumed
      ensures Streaming(v, calls', accepted', [])
      ensures calls' == calls + [Call(old(readBuf), Min(n, |old(readBuf)|))]
      ensures readBuf == old(readBuf)[Min(n, |old(readBuf)|)..]
    {
      n := cb(calls, readBuf);
      var k := Min(n, |readBuf|);
      ProgressOffer(cb, v.body, calls, accepted, readBuf, incoming, k);
      ConsumedMore(v.consumed, accepted, [], readBuf[..k]);
      ShownOneMore(calls, v.first, v.total, v.limit, Call(readBuf, k));
      accepted' := accepted + readBuf[..k];
      calls' := calls + [Call(readBuf, k)];
      Consume(n);
    }

    /** The rest of the buffer is dropped. */
    method Drop(ghost v: Session, ghost calls: seq<Call>, ghost accepted: Bytestring, ghost dropped: Bytestring)
      requires Refused(calls) && Streaming(v, calls, accepted, dropped)
      modifies this`readBuf, this`consumed
      ensures Streaming(v, calls, accepted, dropped + old(readBuf)) && readBuf == []
    {
      ProgressDrop(v.cb, v.body, calls, accepted, dropped, readBuf, incoming);
      ConsumedMore(v.consumed, accepted, dropped, readBuf);
      assert readBuf[..|readBuf|] == readBuf && readBuf[|readBuf|..] == [];
      Consume(|readBuf|);
    }

    /** What the loop does with a buffer that is not empty: offer it, or drop it once the callback has refused. */
    method Serve(cb: Callback, disabled: bool, calls: seq<Call>, ghost v: Session, ghost accepted: Bytestring,
                 ghost dropped: Bytestring)
      returns (n: nat, disabled': bool, calls': seq<Call>, ghost accepted': Bytestring, ghost dropped': Bytestring)
      requires v.cb == cb && readBuf != [] && (disabled <==> Refused(calls)) && Streaming(v, calls, accepted, dropped)
      modifies this`readBuf, this`consumed
      ensures Streaming(v, calls', accepted', dropped') && (disabled' <==> Refused(calls'))
      ensures disabled ==> disabled' && n == |old(readBuf)|
      ensures |readBuf| == |old(readBuf)| - Min(n, |old(readBuf)|)
      ensures !disabled ==> (disabled' <==> n == 0) && dropped' == dropped
      ensures !disabled && disabled' ==> readBuf == calls'[|calls'| - 1].chunk
    {
      if !disabled {
        accepted', calls', dropped' := accepted, calls, dropped;
        n, calls', accepted' := Offer(cb, calls, accepted, v);
        disabled' := n == 0;
      } else {
        ghost var was := readBuf;
        n := |readBuf|;
        Drop(v, calls, accepted, dropped);
        disabled', accepted', calls', dropped' := true, accepted, calls, dropped + was;
      }
    }

    /** The loop's read into the empty buffer. */
    method ReadMore(maxReadTransfer: nat, ghost v: Session, ghost calls: seq<Call>, ghost accepted: Bytestring,
                    ghost dropped: Bytestring)
      returns (ok: bool)
      requires v.limit == maxReadTransfer > 0 && readBuf == [] && readLeft > 0
      requires Streaming(v, calls, accepted, dropped)
      modifies this`readBuf, this`incoming, this`readLeft, this`readLog
      ensures Conserved() && Reads(v.before, readLog, v.limit, !ok)
      ensures ok ==> Streaming(v, calls, accepted, dropped) && readLeft < old(readLeft)
      ensures v.total != |v.first|
    {
      ok := ReadSome(Min(readLeft, maxReadTransfer));
    }

    lemma StreamingStarts(v: Session)
      requires Valid()
      requires v == Session(v.cb, readBuf + incoming, consumed, readBuf, |readBuf| + readLeft, v.limit, readLog)
      ensures Streaming(v, [], [], [])
    {
      assert v.consumed + ([] + []) == v.consumed && [] + [] + v.body == v.body;
    }

    /** The loop of `StreamReadData`. */
    method StreamLoop(cb: Callback, disableDrain: bool, maxReadTransfer: nat, ghost v: Session)
      returns (end: Ending, calls: seq<Call>, ghost dropped: Bytestring)
      requires v.cb == cb && v.limit == maxReadTransfer > 0 && Streaming(v, [], [], [])
      modifies this`readBuf, this`readLeft, this`incoming, this`consumed, this`readLog
      ensures end in {Finished, ServerError} && Conserved()
      ensures Reads(v.before, readLog, v.limit, end == ServerError) && (v.total == |v.first| ==> readLog == v.before)
      ensures Streamed(cb, v.body, calls) && Shown(calls, v.first, v.total, v.limit)
      ensures consumed == v.consumed + (Taken(calls) + dropped) && (!Refused(calls) ==> dropped == [])
      ensures end == Finished ==> Valid()
      ensures end == Finished && Refused(calls) && disableDrain ==>
        dropped == [] && readBuf == calls[|calls| - 1].chunk != []
      ensures end == Finished && !(Refused(calls) && disableDrain) ==> Drained()
    {
      var interrupt, disableCallback := false, false;
      ghost var accepted: Bytestring := [];
      calls, dropped := [], [];
      while !interrupt
        invariant Streaming(v, calls, accepted, dropped)
        invariant disableCallback <==> Refused(calls)
        invariant disableCallback ==> !disableDrain
        invariant interrupt ==> Drained()
        decreases !interrupt, readLeft, |readBuf|, !disableCallback
      {
        var len := |readBuf|;
        if len > 0 {
          var consumeLen;
          consumeLen, disableCallback, calls, accepted, dropped :=
            Serve(cb, disableCallback, calls, v, accepted, dropped);
          if disableCallback && disableDrain {
            return Finished, calls, dropped;
          }
          if consumeLen < len {
            continue;
          }
        }
        if readLeft > 0 {
          var ok := ReadMore(maxReadTransfer, v, calls, accepted, dropped);
          if !ok {
            return ServerError, calls, dropped;
          }
        } else {
          interrupt := true;
        }
      }
      return Finished, calls, dropped;
    }

    /** `StreamReadData`. The callback sees the rest of the body in order, chunk by chunk, each chunk starting where it
        left off, until it takes nothing. Then the rest is dropped, or with `disableDrain` left where it is, the refused
        chunk first in the buffer. It fails exactly when a read fails. What it shows first is all that was buffered;
        afterwards it is what the callback has left of a chunk, or else one bounded read. */
    method StreamReadData(cb: Callback, disableDrain: bool, maxReadTransfer: nat)
      returns (end: Ending, calls: seq<Call>, ghost dropped: Bytestring)
      requires Valid() && maxReadTransfer > 0
      modifies this`readBuf, this`readLeft, this`incoming, this`consumed, this`readLog
      ensures Conserved() && end in {Finished, ServerError}
      ensures Reads(old(readLog), readLog, maxReadTransfer, end == ServerError)
      ensures old(readLeft) == 0 ==> readLog == old(readLog)
      ensures Streamed(cb, old(readBuf + incoming), calls)
      ensures Shown(calls, old(readBuf), old(|readBuf| + readLeft), maxReadTransfer)
      ensures consumed == old(consumed) + (Taken(calls) + dropped)
      ensures !Refused(calls) ==> dropped == []
      ensures end == Finished ==> Valid()
      ensures end == Finished && Refused(calls) && disableDrain ==>
        dropped == [] && readBuf == calls[|calls| - 1].chunk != []
      ensures end == Finished && !(Refused(calls) && disableDrain) ==> Drained()
    {
      ghost var v := Session(cb, readBuf + incoming, consumed, readBuf, |readBuf| + readLeft, maxReadTransfer, readLog);
      StreamingStarts(v);
      end, calls, dropped := StreamLoop(cb, disableDrain, maxReadTransfer, v);
    }

    // ---- Splicing ----

    /** Bytes that are with the receiver, in the pipe, and still on the connection, since the connection held `all`. */
    ghost predicate Splicing(all: Bytestring, owed: nat, dest: Bytestring, pipe: Bytestring, rdPipe: nat)
      reads this
    {
      && dest + pipe + incoming == all
      && |dest| + |pipe| + readLeft == owed
      && rdPipe == |pipe|
    }

    /** The bytes that results report as moved. */
    static function Pushed(script: seq<SpliceResult>, from: nat, to: nat): nat
      requires from <= to <= |script|
    {
      if from == to then 0 else Pushed(script, from, to - 1) + (match script[to - 1] case Moved(n) => n case _ => 0)
    }

    /** Results that `splice` can give: none above the size asked for, and in all no more than is owed and there. */
    static ghost predicate Honest(script: seq<SpliceResult>, from: nat, to: nat, limit: nat)
      requires from <= to <= |script|
    {
      && Pushed(script, from, to) <= limit
      && forall k :: from <= k < to && script[k].Moved? ==> script[k].n <= MAX_SPLICE_AT_ONCE
    }

    /** One `splice` into the pipe that moves `n` bytes, as far as they are asked for and there. */
    method SpliceIn(n: nat, pipe: Bytestring, rdPipe: nat, ghost all: Bytestring, ghost owed: nat,
                    ghost dest: Bytestring)
      returns (rd: nat, pipe': Bytestring, rdPipe': nat)
      requires Splicing(all, owed, dest, pipe, rdPipe)
      modifies this`readLeft, this`incoming
      ensures Splicing(all, owed, dest, pipe', rdPipe') && rdPipe' == rdPipe + rd && (rd == 0 ==> pipe' == pipe)
      ensures rd == Min(Min(n, Min(old(readLeft), MAX_SPLICE_AT_ONCE)), |old(incoming)|)
      ensures readLeft == old(readLeft) - rd && |incoming| == |old(incoming)| - rd
    {
      var rdOnce := Min(readLeft, MAX_SPLICE_AT_ONCE);
      rd := Min(Min(n, rdOnce), |incoming|);
      MovedOn(dest, pipe, incoming, rd);
      pipe', incoming := pipe + incoming[..rd], incoming[rd..];
      rdPipe' := rdPipe + rd;
      readLeft := readLeft - rd;
    }

    /** The inner loop that moves bytes from the connection to the pipe. It stops when the body or the pipe is full, or
        when the system says that it would block, and fails on a result that breaks, or when the server has closed the
        connection too early. No other result ends it. */
    method FillPipe(pipe: Bytestring, rdPipe: nat, script: seq<SpliceResult>, at: nat,
                    ghost all: Bytestring, ghost owed: nat, ghost dest: Bytestring)
      returns (end: Ending, pipe': Bytestring, rdPipe': nat, at': nat)
      requires Splicing(all, owed, dest, pipe, rdPipe) && at <= |script|
      modifies this`readLeft, this`incoming
      ensures Splicing(all, owed, dest, pipe', rdPipe') && at <= at' <= |script|
      ensures end in {Finished, ServerError, Waiting} && (end == Waiting ==> at' == |script|)
      ensures end == Finished ==>
        readLeft == 0 || rdPipe' >= SPLICE_FULL_HINT || (at < at' && script[at' - 1] == Again)
      ensures at < at' ==> rdPipe < SPLICE_FULL_HINT
      ensures rdPipe' == rdPipe || (rdPipe < SPLICE_FULL_HINT && rdPipe' < SPLICE_FULL_HINT + MAX_SPLICE_AT_ONCE)
      ensures end == ServerError ==>
        at < at' && (Breaks(script[at' - 1]) || (script[at' - 1].Moved? && incoming == [] && readLeft > 0))
      ensures forall k :: at <= k < at' && Breaks(script[k]) ==> k == at' - 1 && end == ServerError
      ensures forall k :: at <= k < at' && script[k] == Again ==> k == at' - 1 && end == Finished
      ensures Honest(script, at, at', Min(old(readLeft), |old(incoming)|)) ==>
        rdPipe' == rdPipe + Pushed(script, at, at')
      ensures at' == at ==> end == Waiting || rdPipe >= SPLICE_FULL_HINT || readLeft == 0
      ensures end == Finished && at' == at ==> pipe' == pipe
    {
      pipe', rdPipe', at' := pipe, rdPipe, at;
      while readLeft > 0 && rdPipe' < SPLICE_FULL_HINT
        invariant Splicing(all, owed, dest, pipe', rdPipe') && at <= at' <= |script|
        invariant at' == at ==> pipe' == pipe && rdPipe' == rdPipe
        invariant forall k :: at <= k < at' ==> !Breaks(script[k]) && script[k] != Again
        invariant Honest(script, at, at', Min(old(readLeft), |old(incoming)|)) ==>
          rdPipe' == rdPipe + Pushed(script, at, at')
        invariant at < at' ==> rdPipe < SPLICE_FULL_HINT
        invariant rdPipe' == rdPipe || (rdPipe < SPLICE_FULL_HINT && rdPipe' < SPLICE_FULL_HINT + MAX_SPLICE_AT_ONCE)
        decreases |script| - at'
      {
        if at' == |script| {
          return Waiting, pipe', rdPipe', at';
        }
        at' := at' + 1;
        match script[at' - 1] {
          case Failed => return ServerError, pipe', rdPipe', at';
          case Again => break;
          case Interrupted => continue;
          case Moved(n) =>
            var rd;
            rd, pipe', rdPipe' := SpliceIn(n, pipe', rdPipe', all, owed, dest);
            if rd == 0 {
              return ServerError, pipe', rdPipe', at';
            }
        }
      }
      end := Finished;
    }

    /** The inner loop that moves bytes from the pipe to the receiver. It gives up on a receiver that would block if,
        and only if, the pipe then holds less than the connection still owes; it fails on a result that breaks, and on
        no other. */
    method EmptyPipe(dest: Bytestring, pipe: Bytestring, rdPipe: nat, script: seq<SpliceResult>, at: nat,
                     ghost all: Bytestring, ghost owed: nat)
      returns (end: Ending, dest': Bytestring, pipe': Bytestring, rdPipe': nat, at': nat)
      requires Splicing(all, owed, dest, pipe, rdPipe) && at <= |script|
      ensures Splicing(all, owed, dest', pipe', rdPipe') && at <= at' <= |script|
      ensures end in {Finished, ClientError, Waiting} && (end == Waiting ==> at' == |script|)
      ensures end == Finished ==> rdPipe' == 0 || (at < at' && script[at' - 1] == Again && rdPipe' < readLeft)
      ensures end == ClientError ==> at < at' && Breaks(script[at' - 1])
      ensures forall k :: at <= k < at' && Breaks(script[k]) ==> k == at' - 1 && end == ClientError
      ensures forall k :: at <= k < at' && script[k] == Again && rdPipe < readLeft + Pushed(script, at, k) ==>
        k == at' - 1 && end == Finished
      ensures rdPipe' == if Pushed(script, at, at') < rdPipe then rdPipe - Pushed(script, at, at') else 0
      ensures at' == at ==> end == Waiting || rdPipe == 0
    {
      dest', pipe', rdPipe', at' := dest, pipe, rdPipe, at;
      while rdPipe' > 0
        invariant Splicing(all, owed, dest', pipe', rdPipe') && at <= at' <= |script|
        invariant at' == at ==> rdPipe' == rdPipe
        invariant rdPipe' == if Pushed(script, at, at') < rdPipe then rdPipe - Pushed(script, at, at') else 0
        invariant forall k :: at <= k < at' ==> !Breaks(script[k])
        invariant forall k :: at <= k < at' && script[k] == Again ==> readLeft + Pushed(script, at, k) <= rdPipe
        decreases |script| - at'
      {
        if at' == |script| {
          return Waiting, dest', pipe', rdPipe', at';
        }
        at' := at' + 1;
        match script[at' - 1] {
          case Failed => return ClientError, dest', pipe', rdPipe', at';
          case Again =>
            if rdPipe' < readLeft {
              break;
            }
          case Interrupted => continue;
          case Moved(n) =>
            var wr := Min(n, rdPipe');
            if wr == 0 {
              return ClientError, dest', pipe', rdPipe', at';
            }
            MovedOn([], dest', pipe', wr);
            dest', pipe' := dest' + pipe'[..wr], pipe'[wr..];
            rdPipe' := rdPipe' - wr;
        }
      }
      end := Finished;
    }

    lemma MovedOn(a: Bytestring, b: Bytestring, c: Bytestring, n: nat)
      requires n <= |c|
      ensures a + (b + c[..n]) + c[n..] == a + b + c
      ensures (b + c[..n]) + c[n..] == b + c
    {
      assert c == c[..n] + c[n..];
    }

    /** The outer loop of `StreamSpliceData`, with the assertion behind it; it uses the first `used` results. */
    method SpliceLoop(script: seq<SpliceResult>)
      returns (end: Ending, dest: Bytestring, pipe: Bytestring, ghost used: nat)
      modifies this`readLeft, this`incoming
      ensures used <= |script| && (end == Waiting ==> used == |script|)
      ensures SpliceEnds(script, used, end, |old(incoming)| < old(readLeft))
      ensures Splicing(old(incoming), old(readLeft), dest, pipe, |pipe|)
      ensures end in {Finished, ServerError, ClientError, Waiting}
      ensures end == Finished ==> readLeft == 0 && pipe == []
      ensures |pipe| < SPLICE_FULL_HINT + MAX_SPLICE_AT_ONCE
    {
      ghost var all, owed := incoming, readLeft;
      var rdPipe: nat, at: nat := 0, 0;
      dest, pipe, used := [], [], 0;
      assert [] + [] + all == all;
      while readLeft > 0
        invariant Splicing(all, owed, dest, pipe, rdPipe) && at <= |script|
        invariant (readLeft == 0 ==> rdPipe == 0) && rdPipe < SPLICE_FULL_HINT + MAX_SPLICE_AT_ONCE
        invariant used == at && forall k :: 0 <= k < at ==> !Breaks(script[k])
        decreases |script| - at
      {
        end, pipe, rdPipe, at := FillPipe(pipe, rdPipe, script, at, all, owed, dest);
        used := at;
        if end != Finished {
          return;
        }
        end, dest, pipe, rdPipe, at := EmptyPipe(dest, pipe, rdPipe, script, at, all, owed);
        used := at;
        if end != Finished {
          return;
        }
      }
      assert rdPipe == 0;
      end := Finished;
    }

    /** How the first `used` results of `splice` decide the ending: a result that breaks ends the transfer with an
        error, and there is no error without one, but for a server that closes before it has sent all it owes. */
    static ghost predicate SpliceEnds(script: seq<SpliceResult>, used: nat, end: Ending, short: bool) {
      && used <= |script|
      && (forall k :: 0 <= k < used && Breaks(script[k]) ==> k == used - 1 && end in {ServerError, ClientError})
      && (end == ServerError ==> used > 0 && (Breaks(script[used - 1]) || (short && script[used - 1].Moved?)))
      && (end == ClientError ==> used > 0 && Breaks(script[used - 1]))
    }

    /** `StreamSpliceData`, for every sequence of results of `splice`; `writeFails` is the number of bytes after which
        the plain write of the buffered part fails, if it does. Whatever happens, the bytes with the receiver, the bytes
        in the pipe, and the bytes buffered and still to come are the bytes there were, in order; and a normal return
        means that the receiver has exactly the rest of the body. It fails only if the plain write does, or a result
        that it used breaks, or the server sends less than it owes; "interrupted" and "would block" are no errors. */
    method StreamSpliceData(writeFails: Option<nat>, script: seq<SpliceResult>)
      returns (end: Ending, dest: Bytestring, pipe: Bytestring, ghost used: nat)
      requires Valid()
      modifies this`readBuf, this`readLeft, this`incoming, this`consumed
      ensures Valid() && consumed == old(consumed) + (dest + pipe)
      ensures dest + pipe + (readBuf + incoming) == old(readBuf + incoming)
      ensures end in {Finished, ServerError, ClientError, Waiting}
      ensures end == Finished ==> Drained() && pipe == [] && |dest| == old(|readBuf| + readLeft)
      ensures |pipe| < SPLICE_FULL_HINT + MAX_SPLICE_AT_ONCE
      ensures var unwritable := writeFails.Some? && writeFails.value < |old(readBuf)|;
        if unwritable then end == ClientError && dest == old(readBuf)[..writeFails.value] && used == 0
        else SpliceEnds(script, used, end, |old(incoming)| < old(readLeft)) && (end == Waiting ==> used == |script|)
    {
      var buf := readBuf;
      ghost var all, consumed0 := incoming, consumed;
      if |readBuf| > 0 {
        if writeFails.Some? && writeFails.value < |readBuf| {
          dest, pipe := readBuf[..writeFails.value], [];
          Consume(writeFails.value);
          assert dest + [] + (readBuf + incoming) == (dest + readBuf) + incoming;
          assert dest + [] == dest;
          return ClientError, dest, pipe, 0;
        }
        Consume(|readBuf|);
        assert buf[..|buf|] == buf && buf[|buf|..] == [];
      }
      assert consumed == consumed0 + buf && readBuf == [];
      end, dest, pipe, used := SpliceLoop(script);
      SpliceSum(buf, dest, pipe, incoming, consumed0);
      consumed := consumed + (dest + pipe);
      dest := buf + dest;
    }

    lemma SpliceSum(buf: Bytestring, dest: Bytestring, pipe: Bytestring, incoming: Bytestring, consumed: Bytestring)
      ensures consumed + buf + (dest + pipe) == consumed + ((buf + dest) + pipe)
      ensures (buf + dest) + pipe + ([] + incoming) == buf + (dest + pipe + incoming)
      ensures consumed + ((buf + dest) + pipe) + [] + incoming == consumed + (buf + (dest + pipe + incoming))
    {
      assert [] + incoming == incoming;
      var moved := (buf + dest) + pipe;
      assert moved == buf + (dest + pipe);
      assert consumed + moved + [] == consumed + moved;
      assert moved + incoming == buf + ((dest + pipe) + incoming);
    }
  }

  /** `ReadAnswer` once the head is cut off. A response without a length has no body to be read; one that sent more than
      it announced trips an assertion. */
  method StartBody(buffered: Bytestring, later: Bytestring, contentLength: int, readBody: bool, maxReadTransfer: nat)
    returns (end: Ending, t: Transfer?)
    requires maxReadTransfer > 0
    ensures end in {Finished, ServerError, Aborted}
    ensures end == Aborted <==> 0 <= contentLength < |buffered|
    ensures end == Aborted <==> t == null
    ensures t != null ==> fresh(t) && t.Conserved() && t.stream == buffered + later
    ensures t != null ==> t.bodyLength == if contentLength < 0 then |buffered| else contentLength
    ensures end == Finished ==> t.Valid() && t.consumed == []
    ensures end == Finished && readBody && contentLength > 0 ==>
      t.readLeft == 0 && contentLength <= |buffered + later| && t.readBuf == (buffered + later)[..contentLength]
    ensures end == Finished && !(readBody && contentLength > 0) ==> t.readBuf == buffered
    ensures t != null ==> Reads([], t.readLog, maxReadTransfer, end == ServerError)
    ensures t != null && !(readBody && contentLength > |buffered|) ==> t.readLog == []
  {
    if 0 <= contentLength < |buffered| {
      return Aborted, null;
    }
    t := new Transfer(buffered, later, if contentLength < 0 then |buffered| else contentLength);
    end := Finished;
    if readBody && contentLength > 0 {
      end := t.ReadBody(maxReadTransfer);
    }
  }
}

/** `phr_decode_chunked`: the resumable decoder that rewrites its buffer in place. */
module ChunkedDecoder {
  import opened Bytes
  import opened ChunkedMachine

  /** How a phase of the decoder ends: with the next phase, or with the exit from the call. */
  datatype Exit = Next | Stop(verdict: Verdict)

  /** A call on `s` that has put out `out` so far and has `rest` before it. */
  ghost predicate Tracks(r: Outcome, out: Bytestring, d: ChunkedMachine.Decoder, rest: Bytestring, exit: Exit) {
    r == match exit
         case Next => Prepend(out, Run(d, rest))
         case Stop(v) => Outcome(d, out, v, rest)
  }

  lemma TracksThen(r: Outcome, out: Bytestring, d: ChunkedMachine.Decoder, rest: Bytestring,
                   more: Bytestring, d': ChunkedMachine.Decoder, rest': Bytestring, exit: Exit)
    requires Tracks(r, out, d, rest, Next)
    requires Tracks(Run(d, rest), more, d', rest', exit)
    ensures Tracks(r, out + more, d', rest', exit)
  {
    PrependTwice(out, more, Run(d', rest'));
  }

  lemma SplitTwice(s: Bytestring, i: nat, n: nat)
    requires i + n <= |s|
    ensures s == s[..i] + s[i..i + n] + s[i + n..]
  {
  }

  lemma MovedSlices(was: Bytestring, now: Bytestring, dst: nat, src: nat, n: nat, end: nat)
    requires dst <= src && src + n <= end <= |was|
    requires now == was[..dst] + was[src..src + n] + was[dst + n..]
    ensures now[..dst + n] == was[..dst] + was[src..src + n]
    ensures forall k :: dst + n <= k < |was| ==> now[k] == was[k]
    ensures now[src + n..end] == was[src + n..end]
  {
    assert now[dst + n..] == was[dst + n..];
    forall k | dst + n <= k < |was|
      ensures now[k] == was[k]
    {
      assert now[dst + n..][k - (dst + n)] == was[dst + n..][k - (dst + n)];
    }
  }

  class Decoder {
    var bytesLeftInChunk: size
    var consumeTrailer: bool
    var hexCount: int8
    var phase: Phase

    ghost function Abs(): ChunkedMachine.Decoder
      reads this
    {
      ChunkedMachine.Decoder(bytesLeftInChunk, consumeTrailer, hexCount, phase)
    }

    constructor (trailer: bool)
      ensures Abs() == Fresh(trailer) && Reachable(Abs())
    {
      bytesLeftInChunk, consumeTrailer, hexCount, phase := 0, trailer, 0, ChunkSize;
    }

    method ReadSize(buf: array<byte>, bufsz: nat, src: nat, ghost r: Outcome, ghost out: Bytestring)
      returns (next: nat, exit: Exit)
      requires src <= bufsz <= buf.Length && phase == ChunkSize
      requires Tracks(r, out, Abs(), buf[src..bufsz], Next)
      modifies this
      ensures src <= next <= bufsz && Tracks(r, out, Abs(), buf[next..bufsz], exit)
      ensures exit == Next ==> phase == ChunkExt
    {
      next := src;
      while true
        invariant src <= next <= bufsz && phase == ChunkSize
        invariant Tracks(r, out, Abs(), buf[next..bufsz], Next)
        decreases bufsz - next
      {
        if next == bufsz {
          return next, Stop(Incomplete);
        }
        var v := DecodeHex(buf[next]);
        if v == -1 {
          if hexCount == 0 {
            return next, Stop(Malformed);
          }
          break;
        }
        if hexCount == MAX_HEX {
          return next, Stop(Malformed);
        }
        assert buf[next..bufsz][1..] == buf[next + 1..bufsz];
        bytesLeftInChunk := AddDigit(bytesLeftInChunk, v);
        hexCount := Increment8(hexCount);
        assert Prepend([], Run(Abs(), buf[next + 1..bufsz])) == Run(Abs(), buf[next + 1..bufsz]);
        next := next + 1;
      }
      hexCount := 0;
      phase := ChunkExt;
      return next, Next;
    }

    method SkipExt(buf: array<byte>, bufsz: nat, src: nat, ghost r: Outcome, ghost out: Bytestring)
      returns (next: nat, exit: Exit)
      requires src <= bufsz <= buf.Length && phase == ChunkExt
      requires Tracks(r, out, Abs(), buf[src..bufsz], Next)
      modifies this
      ensures src <= next <= bufsz && Tracks(r, out, Abs(), buf[next..bufsz], exit)
      ensures exit == Next ==> src < next && phase in {ChunkData, TrailersLineHead}
    {
      next := src;
      while true
        invariant src <= next <= bufsz && old(Abs()) == Abs()
        invariant Tracks(r, out, Abs(), buf[next..bufsz], Next)
        decreases bufsz - next
      {
        if next == bufsz {
          return next, Stop(Incomplete);
        }
        assert buf[next..bufsz][1..] == buf[next + 1..bufsz];
        if buf[next] == LF {
          break;
        }
        assert Prepend([], Run(Abs(), buf[next + 1..bufsz])) == Run(Abs(), buf[next + 1..bufsz]);
        next := next + 1;
      }
      next := next + 1;
      if bytesLeftInChunk == 0 {
        if consumeTrailer {
          phase := TrailersLineHead;
        } else {
          return next, Stop(Complete);
        }
      } else {
        phase := ChunkData;
      }
      assert Prepend([], Run(Abs(), buf[next..bufsz])) == Run(Abs(), buf[next..bufsz]);
      return next, Next;
    }

    /** How much chunk data there is to move, and the counters once it has moved. */
    method CountData(buf: array<byte>, bufsz: nat, src: nat, ghost r: Outcome, ghost out: Bytestring)
      returns (moved: nat, exit: Exit)
      requires src <= bufsz <= buf.Length && phase == ChunkData
      requires Tracks(r, out, Abs(), buf[src..bufsz], Next)
      modifies this
      ensures src + moved <= bufsz
      ensures Tracks(r, out + buf[src..src + moved], Abs(), buf[src + moved..bufsz], exit)
      ensures if exit == Next then phase == ChunkCrlf else src + moved == bufsz
    {
      var avail := bufsz - src;
      moved := if avail < bytesLeftInChunk then avail else bytesLeftInChunk;
      ghost var d, rest := Abs(), buf[src..bufsz];
      DataPhase(d, rest, moved);
      assert rest[..moved] == buf[src..src + moved] && rest[moved..] == buf[src + moved..bufsz];
      if avail < bytesLeftInChunk {
        bytesLeftInChunk, exit := bytesLeftInChunk - avail, Stop(Incomplete);
      } else {
        bytesLeftInChunk, phase, exit := 0, ChunkCrlf, Next;
      }
      TracksThen(r, out, d, rest, rest[..moved], Abs(), rest[moved..], exit);
    }

    /** Chunk data moves down to `dst` in one piece, as much of it as is there. */
    method MoveData(buf: array<byte>, bufsz: nat, dst: nat, src: nat, ghost r: Outcome) returns (moved: nat, exit: Exit)
      requires dst <= src <= bufsz <= buf.Length && phase == ChunkData
      requires Tracks(r, buf[..dst], Abs(), buf[src..bufsz], Next)
      modifies this, buf
      ensures src + moved <= bufsz
      ensures forall k :: dst + moved <= k < buf.Length ==> buf[k] == old(buf[k])
      ensures Tracks(r, buf[..dst + moved], Abs(), buf[src + moved..bufsz], exit)
      ensures if exit == Next then phase == ChunkCrlf else src + moved == bufsz
    {
      ghost var was := buf[..];
      moved, exit := CountData(buf, bufsz, src, r, buf[..dst]);
      if dst != src {
        MoveDown(buf, dst, src, moved);
      } else {
        SplitTwice(buf[..], src, moved);
      }
      MovedSlices(was, buf[..], dst, src, moved, bufsz);
    }

    method ExpectCrlf(buf: array<byte>, bufsz: nat, src: nat, ghost r: Outcome, ghost out: Bytestring)
      returns (next: nat, exit: Exit)
      requires src <= bufsz <= buf.Length && phase == ChunkCrlf
      requires Tracks(r, out, Abs(), buf[src..bufsz], Next)
      modifies this
      ensures src <= next <= bufsz && Tracks(r, out, Abs(), buf[next..bufsz], exit)
      ensures exit == Next ==> src < next && phase == ChunkSize
    {
      next := src;
      while true
        invariant src <= next <= bufsz && old(Abs()) == Abs()
        invariant Tracks(r, out, Abs(), buf[next..bufsz], Next)
        decreases bufsz - next
      {
        if next == bufsz {
          return next, Stop(Incomplete);
        }
        assert buf[next..bufsz][1..] == buf[next + 1..bufsz];
        if buf[next] != CR {
          break;
        }
        assert Prepend([], Run(Abs(), buf[next + 1..bufsz])) == Run(Abs(), buf[next + 1..bufsz]);
        next := next + 1;
      }
      if buf[next] != LF {
        return next, Stop(Malformed);
      }
      next := next + 1;
      phase := ChunkSize;
      assert Prepend([], Run(Abs(), buf[next..bufsz])) == Run(Abs(), buf[next..bufsz]);
      return next, Next;
    }

    method TrailerHead(buf: array<byte>, bufsz: nat, src: nat, ghost r: Outcome, ghost out: Bytestring)
      returns (next: nat, exit: Exit)
      requires src <= bufsz <= buf.Length && phase == TrailersLineHead
      requires Tracks(r, out, Abs(), buf[src..bufsz], Next)
      modifies this
      ensures src <= next <= bufsz && Tracks(r, out, Abs(), buf[next..bufsz], exit)
      ensures exit == Next ==> src < next && phase == TrailersLineMiddle
    {
      next := src;
      while true
        invariant src <= next <= bufsz && old(Abs()) == Abs()
        invariant Tracks(r, out, Abs(), buf[next..bufsz], Next)
        decreases bufsz - next
      {
        if next == bufsz {
          return next, Stop(Incomplete);
        }
        assert buf[next..bufsz][1..] == buf[next + 1..bufsz];
        if buf[next] != CR {
          break;
        }
        assert Prepend([], Run(Abs(), buf[next + 1..bufsz])) == Run(Abs(), buf[next + 1..bufsz]);
        next := next + 1;
      }
      next := next + 1;
      if buf[next - 1] == LF {
        return next, Stop(Complete);
      }
      phase := TrailersLineMiddle;
      assert Prepend([], Run(Abs(), buf[next..bufsz])) == Run(Abs(), buf[next..bufsz]);
      return next, Next;
    }

    method TrailerMiddle(buf: array<byte>, bufsz: nat, src: nat, ghost r: Outcome, ghost out: Bytestring)
      returns (next: nat, exit: Exit)
      requires src <= bufsz <= buf.Length && phase == TrailersLineMiddle
      requires Tracks(r, out, Abs(), buf[src..bufsz], Next)
      modifies this
      ensures src <= next <= bufsz && Tracks(r, out, Abs(), buf[next..bufsz], exit)
      ensures exit == Next ==> src < next && phase == TrailersLineHead
    {
      next := src;
      while true
        invariant src <= next <= bufsz && old(Abs()) == Abs()
        invariant Tracks(r, out, Abs(), buf[next..bufsz], Next)
        decreases bufsz - next
      {
        if next == bufsz {
          return next, Stop(Incomplete);
        }
        assert buf[next..bufsz][1..] == buf[next + 1..bufsz];
        if buf[next] == LF {
          break;
        }
        assert Prepend([], Run(Abs(), buf[next + 1..bufsz])) == Run(Abs(), buf[next + 1..bufsz]);
        next := next + 1;
      }
      next := next + 1;
      phase := TrailersLineHead;
      assert Prepend([], Run(Abs(), buf[next..bufsz])) == Run(Abs(), buf[next..bufsz]);
      return next, Next;
    }

    /** The size of a chunk, then its extensions. */
    method SizeLine(buf: array<byte>, bufsz: nat, src: nat, ghost r: Outcome, ghost out: Bytestring)
      returns (next: nat, exit: Exit)
      requires src <= bufsz <= buf.Length && phase in {ChunkSize, ChunkExt}
      requires Tracks(r, out, Abs(), buf[src..bufsz], Next)
      modifies this
      ensures src <= next <= bufsz && Tracks(r, out, Abs(), buf[next..bufsz], exit)
      ensures exit == Next ==> src < next && phase in {ChunkData, TrailersLineHead}
    {
      next := src;
      if phase == ChunkSize {
        next, exit := ReadSize(buf, bufsz, next, r, out);
        if exit.Stop? { return; }
      }
      next, exit := SkipExt(buf, bufsz, next, r, out);
    }

    /** The data of a chunk, then its line end. */
    method DataLine(buf: array<byte>, bufsz: nat, dst: nat, src: nat, ghost r: Outcome)
      returns (dst': nat, src': nat, exit: Exit)
      requires dst <= src <= bufsz <= buf.Length && phase in {ChunkData, ChunkCrlf}
      requires Tracks(r, buf[..dst], Abs(), buf[src..bufsz], Next)
      modifies this, buf
      ensures dst <= dst' <= src' <= bufsz
      ensures exit == Next ==> src < src'
      ensures Tracks(r, buf[..dst'], Abs(), buf[src'..bufsz], exit)
      ensures forall k :: dst' <= k < buf.Length ==> buf[k] == old(buf[k])
    {
      dst', src' := dst, src;
      if phase == ChunkData {
        var moved;
        moved, exit := MoveData(buf, bufsz, dst, src, r);
        dst', src' := dst + moved, src + moved;
        if exit.Stop? { return; }
      }
      src', exit := ExpectCrlf(buf, bufsz, src', r, buf[..dst']);
    }

    /** The start of a trailer line, then the rest of it. */
    method TrailerLine(buf: array<byte>, bufsz: nat, src: nat, ghost r: Outcome, ghost out: Bytestring)
      returns (next: nat, exit: Exit)
      requires src <= bufsz <= buf.Length && phase in {TrailersLineHead, TrailersLineMiddle}
      requires Tracks(r, out, Abs(), buf[src..bufsz], Next)
      modifies this
      ensures src <= next <= bufsz && Tracks(r, out, Abs(), buf[next..bufsz], exit)
      ensures exit == Next ==> src < next
    {
      next := src;
      if phase == TrailersLineHead {
        next, exit := TrailerHead(buf, bufsz, next, r, out);
        if exit.Stop? { return; }
      }
      next, exit := TrailerMiddle(buf, bufsz, next, r, out);
    }

    /** The `switch` over the phases, with those that a phase falls through to. */
    method PhasesFrom(buf: array<byte>, bufsz: nat, dst: nat, src: nat, ghost r: Outcome)
      returns (dst': nat, src': nat, exit: Exit)
      requires dst <= src <= bufsz <= buf.Length
      requires Tracks(r, buf[..dst], Abs(), buf[src..bufsz], Next)
      modifies this, buf
      ensures dst <= dst' <= src' <= bufsz
      ensures exit == Next ==> src < src'
      ensures Tracks(r, buf[..dst'], Abs(), buf[src'..bufsz], exit)
      ensures forall k :: dst' <= k < buf.Length ==> buf[k] == old(buf[k])
    {
      dst' := dst;
      match phase {
        case ChunkSize | ChunkExt => src', exit := SizeLine(buf, bufsz, src, r, buf[..dst]);
        case ChunkData | ChunkCrlf => dst', src', exit := DataLine(buf, bufsz, dst, src, r);
        case _ => src', exit := TrailerLine(buf, bufsz, src, r, buf[..dst]);
      }
    }

    /** The loop around it, up to the exit from the call. */
    method Phases(buf: array<byte>, bufsz: nat, ghost r: Outcome) returns (dst: nat, src: nat, verdict: Verdict)
      requires bufsz <= buf.Length && r == Run(Abs(), buf[..bufsz])
      modifies this, buf
      ensures dst <= src <= bufsz && r == Outcome(Abs(), buf[..dst], verdict, buf[src..bufsz])
      ensures forall k :: dst <= k < buf.Length ==> buf[k] == old(buf[k])
    {
      var exit := Next;
      dst, src := 0, 0;
      assert buf[0..bufsz] == buf[..bufsz] && buf[..0] == [] && Prepend([], r) == r;
      while exit == Next
        invariant dst <= src <= bufsz
        invariant Tracks(r, buf[..dst], Abs(), buf[src..bufsz], exit)
        invariant forall k :: dst <= k < buf.Length ==> buf[k] == old(buf[k])
        decreases exit == Next, bufsz - src
      {
        dst, src, exit := PhasesFrom(buf, bufsz, dst, src, r);
      }
      verdict := exit.verdict;
    }

    /** One call. The buffer's first `bufsz` bytes become the decoded bytes followed by the bytes not consumed; whatever
        lies behind them is as it was. The code -2 asks for more input and means that all there was is used up, -1 is an
        error, and any other code is the number of bytes behind the message. */
    method Decode(buf: array<byte>, bufsz: nat) returns (ret: int, newsz: nat)
      requires bufsz <= buf.Length
      modifies this, buf
      ensures var r := Run(old(Abs()), old(buf[..bufsz]));
        && Abs() == r.dec
        && (ret == -2 <==> r.verdict == Incomplete) && (ret == -1 <==> r.verdict == Malformed)
        && (r.verdict == Complete ==> ret == |r.tail|) && (ret == -2 ==> r.tail == [])
        && newsz == |r.out|
        && |r.out| + |r.tail| <= bufsz
        && buf[..] == r.out + r.tail + old(buf[..])[|r.out| + |r.tail|..]
    {
      ghost var was := buf[..];
      ghost var r := Run(Abs(), was[..bufsz]);
      RunConsumes(Abs(), was[..bufsz]);
      assert buf[..bufsz] == was[..bufsz];
      var dst, src, verdict := Phases(buf, bufsz, r);
      ret := match verdict case Incomplete => -2 case Malformed => -1 case Complete => bufsz - src;
      Compact(buf, bufsz, dst, src);
      newsz := dst;
    }

    /** The common exit: the unconsumed bytes close up to the decoded ones. */
    method Compact(buf: array<byte>, bufsz: nat, dst: nat, src: nat)
      requires dst <= src <= bufsz <= buf.Length
      modifies buf
      ensures buf[..] == old(buf[..dst]) + old(buf[src..bufsz]) + old(buf[dst + (bufsz - src)..])
    {
      if dst != src {
        MoveDown(buf, dst, src, bufsz - src);
      } else {
        SplitTwice(buf[..], src, bufsz - src);
      }
    }
  }
}

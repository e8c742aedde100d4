/** The chunked coding of section 4.1 of RFC 7230, as a machine that looks at one byte at a time.
    `Run` is the specification that the in-place decoder of `ChunkedDecoder.dfy` is proved against. */
module ChunkedMachine {
  import opened Bytes

  datatype Phase = ChunkSize | ChunkExt | ChunkData | ChunkCrlf | TrailersLineHead | TrailersLineMiddle

  /** A signed one-byte counter, as `_hex_count` is. */
  type int8 = x: int | -128 <= x < 128

  /** The fields of `phr_chunked_decoder`. */
  datatype Decoder = Decoder(left: size, consumeTrailer: bool, hexCount: int8, phase: Phase)

  datatype Verdict = Incomplete | Complete | Malformed

  /** What a call leaves behind: decoder fields, decoded bytes, verdict, and the bytes not consumed. */
  datatype Outcome = Outcome(dec: Decoder, out: Bytestring, verdict: Verdict, tail: Bytestring)

  /** `Go` and `Finish` consume the byte, `Reject` does not. */
  datatype StepResult = Go(dec: Decoder, out: Bytestring) | Finish(dec: Decoder) | Reject(dec: Decoder)

  /** Sizes have at most `sizeof(size_t) * 2` digits. */
  const MAX_HEX := 16

  function DecodeHex(b: byte): (v: int)
    ensures -1 <= v < 16
  {
    if 48 <= b <= 57 then b - 48
    else if 65 <= b <= 70 then b - 65 + 10
    else if 97 <= b <= 102 then b - 97 + 10
    else -1
  }

  /** "0123456789abcdef" and "0123456789ABCDEF" */
  const LOWER_HEX: Bytestring := [48, 49, 50, 51, 52, 53, 54, 55, 56, 57, 97, 98, 99, 100, 101, 102]
  const UPPER_HEX: Bytestring := [48, 49, 50, 51, 52, 53, 54, 55, 56, 57, 65, 66, 67, 68, 69, 70]

  /** A digit is worth its place in the alphabet, in either case; whatever is in neither alphabet is no digit. */
  lemma HexExactly(b: byte)
    ensures forall v: nat :: v < 16 ==> (DecodeHex(b) == v <==> LOWER_HEX[v] == b || UPPER_HEX[v] == b)
    ensures DecodeHex(b) == -1 <==> b !in LOWER_HEX && b !in UPPER_HEX
  {
    var v := DecodeHex(b);
    if v >= 0 {
      assert LOWER_HEX[v] == b || UPPER_HEX[v] == b;
    }
  }

  /** The zero-filled decoder, apart from the caller's choice about trailers. */
  function Fresh(consumeTrailer: bool): Decoder {
    Decoder(0, consumeTrailer, 0, ChunkSize)
  }

  function Increment8(x: int8): int8 {
    if x == 127 then -128 else x + 1
  }

  /** The size after one more digit, with the wrap-around of `size_t`. */
  function AddDigit(left: size, v: int): size {
    (left * 16 + v) % 0x1_0000_0000_0000_0000
  }

  /** A chunk with no data left is past its data, before any byte is looked at. */
  function Settle(d: Decoder): Decoder {
    if d.phase == ChunkData && d.left == 0 then d.(phase := ChunkCrlf) else d
  }

  function ExtStep(d: Decoder, b: byte): StepResult {
    if b != LF then Go(d.(phase := ChunkExt), [])
    else if d.left != 0 then Go(d.(phase := ChunkData), [])
    else if d.consumeTrailer then Go(d.(phase := TrailersLineHead), [])
    else Finish(d.(phase := ChunkExt))
  }

  function Step(dec: Decoder, b: byte): StepResult {
    var d := Settle(dec);
    match d.phase
    case ChunkSize =>
      var v := DecodeHex(b);
      if v == -1 then
        if d.hexCount == 0 then Reject(d) else ExtStep(d.(hexCount := 0), b)
      else if d.hexCount == MAX_HEX then Reject(d)
      else Go(d.(left := AddDigit(d.left, v), hexCount := Increment8(d.hexCount)), [])
    case ChunkExt => ExtStep(d, b)
    case ChunkData => Go(Settle(d.(left := d.left - 1)), [b])
    case ChunkCrlf =>
      if b == CR then Go(d, []) else if b == LF then Go(d.(phase := ChunkSize), []) else Reject(d)
    case TrailersLineHead =>
      if b == CR then Go(d, []) else if b == LF then Finish(d) else Go(d.(phase := TrailersLineMiddle), [])
    case TrailersLineMiddle =>
      if b == LF then Go(d.(phase := TrailersLineHead), []) else Go(d, [])
  }

  function Prepend(out: Bytestring, r: Outcome): Outcome {
    r.(out := out + r.out)
  }

  function Run(d: Decoder, s: Bytestring): Outcome
    decreases |s|
  {
    if s == [] then Outcome(Settle(d), [], Incomplete, [])
    else
      match Step(d, s[0])
      case Go(d', o) => Prepend(o, Run(d', s[1..]))
      case Finish(d') => Outcome(d', [], Complete, s[1..])
      case Reject(d') => Outcome(d', [], Malformed, s)
  }

  /** Calling the decoder again after `r`, with `more` as the newly arrived data. A caller stops feeding the decoder
      once it has its verdict, so whatever arrives then is only kept. */
  function Resume(r: Outcome, more: Bytestring): Outcome {
    if r.verdict == Incomplete then Prepend(r.out, Run(r.dec, more)) else r.(tail := r.tail + more)
  }

  function RunPieces(r: Outcome, pieces: seq<Bytestring>): Outcome
    decreases |pieces|
  {
    if pieces == [] then r else RunPieces(Resume(r, pieces[0]), pieces[1..])
  }

  /** A settled decoder behaves like the decoder it came from. */
  lemma SettleSame(d: Decoder, s: Bytestring)
    ensures Run(Settle(d), s) == Run(d, s)
  {
  }

  /** One call on `a + b` is a call on `a` resumed with `b`: for every decoder state, every byte string, every cut. */
  lemma {:induction false} RunSplit(d: Decoder, a: Bytestring, b: Bytestring)
    ensures Run(d, a + b) == Resume(Run(d, a), b)
    decreases |a|
  {
    if a == [] {
      assert a + b == b;
      SettleSame(d, b);
    } else {
      assert (a + b)[0] == a[0] && (a + b)[1..] == a[1..] + b;
      match Step(d, a[0]) {
        case Go(d', o) =>
          RunSplit(d', a[1..], b);
          var r := Run(d', a[1..]);
          if r.verdict == Incomplete {
            assert o + (r.out + Run(r.dec, b).out) == (o + r.out) + Run(r.dec, b).out;
          }
        case Finish(_) =>
        case Reject(_) =>
      }
    }
  }

  lemma {:induction false} ResumeSplit(r: Outcome, a: Bytestring, b: Bytestring)
    ensures Resume(r, a + b) == Resume(Resume(r, a), b)
  {
    if r.verdict == Incomplete {
      RunSplit(r.dec, a, b);
      var q := Run(r.dec, a);
      if q.verdict == Incomplete {
        assert r.out + (q.out + Run(q.dec, b).out) == (r.out + q.out) + Run(q.dec, b).out;
      }
    } else {
      assert r.tail + (a + b) == (r.tail + a) + b;
    }
  }

  /** Fragmentation does not matter: feeding any pieces one by one leaves the same decoder, the same decoded bytes, the
      same verdict and the same unconsumed tail as one call on their concatenation. */
  lemma {:induction false} FragmentationIndependent(d: Decoder, pieces: seq<Bytestring>)
    ensures RunPieces(Run(d, []), pieces) == Run(d, Join(pieces))
  {
    RunPiecesJoin(Run(d, []), pieces);
    RunSplit(d, [], Join(pieces));
    assert [] + Join(pieces) == Join(pieces);
  }

  lemma {:induction false} RunPiecesJoin(r: Outcome, pieces: seq<Bytestring>)
    requires r.verdict == Incomplete ==> r.tail == [] && Settle(r.dec) == r.dec
    ensures RunPieces(r, pieces) == Resume(r, Join(pieces))
    decreases |pieces|
  {
    if pieces == [] {
    } else {
      var q := Resume(r, pieces[0]);
      if r.verdict == Incomplete {
        RunConsumes(r.dec, pieces[0]);
      }
      RunPiecesJoin(q, pieces[1..]);
      ResumeSplit(r, pieces[0], Join(pieces[1..]));
    }
  }

  /** How a run accounts for its input: the tail is a suffix of it, the decoded bytes are no longer than what was
      consumed, an incomplete run consumes everything, a complete one at least a byte. */
  ghost predicate Accounts(r: Outcome, s: Bytestring) {
    && |r.out| + |r.tail| <= |s|
    && r.tail == s[|s| - |r.tail|..]
    && (r.verdict == Incomplete ==> r.tail == [] && Settle(r.dec) == r.dec)
    && (r.verdict == Malformed ==> r.tail != [])
    && (r.verdict == Complete ==> |r.tail| < |s|)
  }

  lemma StepOut(d: Decoder, b: byte)
    ensures Step(d, b).Go? ==> |Step(d, b).out| <= 1
  {
  }

  lemma {:induction false} RunConsumes(d: Decoder, s: Bytestring)
    ensures Accounts(Run(d, s), s)
    decreases |s|
  {
    if s == [] {
      assert Settle(Settle(d)) == Settle(d);
    } else {
      var st := Step(d, s[0]);
      if st.Go? {
        StepOut(d, s[0]);
        RunConsumes(st.dec, s[1..]);
        AccountsPrepend(Run(st.dec, s[1..]), s, st.out);
        assert Run(d, s) == Prepend(st.out, Run(st.dec, s[1..]));
      } else {
        AccountsStop(st.dec, s);
        assert Run(d, s) == if st.Finish? then Outcome(st.dec, [], Complete, s[1..])
          else Outcome(st.dec, [], Malformed, s);
      }
    }
  }

  lemma AccountsStop(d: Decoder, s: Bytestring)
    requires s != []
    ensures Accounts(Outcome(d, [], Complete, s[1..]), s) && Accounts(Outcome(d, [], Malformed, s), s)
  {
    assert s[0..] == s;
  }

  lemma AccountsPrepend(r: Outcome, s: Bytestring, o: Bytestring)
    requires s != [] && |o| <= 1 && Accounts(r, s[1..])
    ensures Accounts(Prepend(o, r), s)
  {
    var n := |s| - |r.tail|;
    assert s[1..][n - 1..] == s[n..];
  }

  /** Once a prefix has a verdict, further bytes only lengthen the tail. */
  lemma {:induction false} VerdictIsFinal(d: Decoder, a: Bytestring, b: Bytestring)
    requires Run(d, a).verdict != Incomplete
    ensures Run(d, a + b) == Run(d, a).(tail := Run(d, a).tail + b)
  {
    RunSplit(d, a, b);
  }

  /** The data phase in bulk: `n` bytes of chunk data pass through unchanged. */
  lemma {:induction false} RunData(d: Decoder, s: Bytestring, n: nat)
    requires d.phase == ChunkData && n <= d.left && n <= |s|
    ensures Run(d, s) == Prepend(s[..n], Run(Settle(d.(left := d.left - n)), s[n..]))
    decreases n
  {
    if n == 0 {
      assert s[..0] == [] && s[0..] == s;
      SettleSame(d, s);
    } else {
      var d' := d.(left := d.left - 1);
      OneDataByte(d, s);
      RunData(d', s[1..], n - 1);
      assert s[1..][n - 1..] == s[n..];
      assert [s[0]] + s[1..][..n - 1] == s[..n];
      PrependTwice([s[0]], s[1..][..n - 1], Run(Settle(d.(left := d.left - n)), s[n..]));
    }
  }

  lemma OneDataByte(d: Decoder, s: Bytestring)
    requires d.phase == ChunkData && d.left > 0 && s != []
    ensures Run(d, s) == Prepend([s[0]], Run(d.(left := d.left - 1), s[1..]))
  {
    SettleSame(d.(left := d.left - 1), s[1..]);
  }

  /** The data phase on all the input there is: it either uses the input up, or finishes the chunk. */
  lemma {:induction false} DataPhase(d: Decoder, s: Bytestring, n: nat)
    requires d.phase == ChunkData && n == (if |s| < d.left then |s| else d.left)
    ensures Run(d, s) ==
      if |s| < d.left then Outcome(d.(left := d.left - n), s, Incomplete, [])
      else Prepend(s[..n], Run(d.(left := 0, phase := ChunkCrlf), s[n..]))
  {
    RunData(d, s, n);
    if |s| < d.left {
      assert s[..n] == s && s[n..] == [] && s + [] == s;
    }
  }

  lemma PrependTwice(a: Bytestring, b: Bytestring, r: Outcome)
    ensures Prepend(a, Prepend(b, r)) == Prepend(a + b, r)
  {
    assert a + (b + r.out) == (a + b) + r.out;
  }

  ghost function Pow16(n: nat): (p: nat)
    ensures p >= 1
  {
    if n == 0 then 1 else 16 * Pow16(n - 1)
  }

  /** What holds of every decoder that was zero-filled before its first call: a size still being read is smaller than
      16 to the number of its digits, and sizes are only pending where a size can be. */
  ghost predicate Reachable(d: Decoder) {
    && 0 <= d.hexCount <= MAX_HEX
    && (d.phase == ChunkSize ==> d.left < Pow16(d.hexCount))
    && (d.phase != ChunkSize ==> d.hexCount == 0)
    && (d.phase in {ChunkCrlf, TrailersLineHead, TrailersLineMiddle} ==> d.left == 0)
  }

  lemma {:induction false} Pow16Monotone(a: nat, b: nat)
    requires a <= b
    ensures Pow16(a) <= Pow16(b)
    decreases b
  {
    if a < b {
      Pow16Monotone(a, b - 1);
    }
  }

  /** The sixteen-digit limit is what keeps the size from wrapping: sixteen digits fill `size_t` exactly. */
  lemma {:induction false} AddDigitExact(d: Decoder, v: nat)
    requires Reachable(d) && d.phase == ChunkSize && d.hexCount < MAX_HEX && v < 16
    ensures AddDigit(d.left, v) == d.left * 16 + v < Pow16(d.hexCount + 1) <= 0x1_0000_0000_0000_0000
  {
    Pow16Monotone(d.hexCount + 1, 16);
    assert Pow16(16) == 0x1_0000_0000_0000_0000 by {
      assert Pow16(4) == 0x1_0000;
      assert Pow16(8) == 0x1_0000_0000;
      assert Pow16(12) == 0x1_0000_0000_0000;
    }
  }

  lemma {:induction false} StepReachable(d: Decoder, b: byte)
    requires Reachable(d)
    ensures Reachable(Settle(d))
    ensures Reachable(Step(d, b).dec)
  {
    if d.phase == ChunkSize && DecodeHex(b) != -1 && d.hexCount < MAX_HEX {
      AddDigitExact(d, DecodeHex(b));
    }
    assert Pow16(0) == 1;
  }

  /** Every run from a reachable decoder ends in a reachable decoder. */
  lemma {:induction false} RunReachable(d: Decoder, s: Bytestring)
    requires Reachable(d)
    ensures Reachable(Run(d, s).dec)
    decreases |s|
  {
    if s == [] {
      StepReachable(d, LF);
    } else {
      StepReachable(d, s[0]);
      match Step(d, s[0]) {
        case Go(d', _) => RunReachable(d', s[1..]);
        case Finish(_) =>
        case Reject(_) =>
      }
    }
  }
}

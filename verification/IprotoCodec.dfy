/** The IProto packet: a buffer that grows while values are packed into it, and a cursor that unpacks them again. */
module IprotoCodec {
  import opened Bytes
  import IprotoBer

  const HEADER := 12

  const WORD := 0x1_0000_0000

  /** The arguments of `Packer`. A `CStr` is the memory behind a `char *`. */
  datatype Value = U32(n: uint32) | U8(b: byte) | Str(s: Bytestring) | CStr(mem: Bytestring) | Buf(buf: Bytestring)

  /** The type arguments of `Unpacker`. */
  datatype Kind = KU32 | KU8 | KStr | KBuf

  /** Sizes are 32 bits wide; of a longer string only that many bytes are packed. */
  function Clip(s: Bytestring): (r: Bytestring)
    ensures |r| < WORD && r <= s && (|s| - |r|) % WORD == 0
    ensures |s| < WORD ==> r == s
  {
    s[..|s| % WORD]
  }

  /** The size in front of a string, in the form the flags ask for. */
  function Size(sz: uint32, ber: bool): (w: Bytestring)
    ensures 1 <= |w| <= 5
  {
    if ber then IprotoBer.Ber(sz) else LE32(sz)
  }

  function Encode(v: Value, ber: bool): Bytestring {
    match v
    case U32(n) => LE32(n)
    case U8(b) => [b]
    case Str(s) => Size(|Clip(s)|, ber) + Clip(s)
    case CStr(mem) => Size(|Clip(CString(mem))|, ber) + Clip(CString(mem))
    case Buf(b) => Clip(b)
  }

  function EncodeAll(vs: seq<Value>, ber: bool): Bytestring {
    if vs == [] then [] else Encode(vs[0], ber) + EncodeAll(vs[1..], ber)
  }

  /** A packet as it goes over the wire. */
  function Wire(msg: uint32, sync: uint32, payload: Bytestring): Bytestring
    requires |payload| < WORD
  {
    LE32(msg) + LE32(|payload|) + LE32(sync) + payload
  }

  // ---- Unpacking, as a function of the raw bytes ----

  /** `Mismatch` is the exception `tuple_missmatch`; `Outside` stands for a read outside the packet's memory. */
  datatype Got<+T> = Got(ofs: uint32, val: T) | Mismatch | Outside

  /** The comparison that guards a read: it is done in 64 bits, and `len` includes the header. */
  predicate TooFar(end: int, len: uint32) {
    (end - HEADER) % 0x1_0000_0000_0000_0000 > len
  }

  function UnpackOne(data: Bytestring, len: uint32, ofs: uint32, kind: Kind): Got<Value> {
    match kind
    case KU32 =>
      if TooFar(ofs + 4, len) then Mismatch
      else if ofs + 4 > |data| || ofs + 4 >= WORD then Outside
      else Got(ofs + 4, U32(UnLE32(data[ofs..ofs + 4])))
    case KU8 =>
      if TooFar(ofs + 1, len) then Mismatch
      else if ofs + 1 > |data| || ofs + 1 >= WORD then Outside
      else Got(ofs + 1, U8(data[ofs]))
    case KStr =>
      if TooFar(ofs + 4, len) then Mismatch
      else if ofs + 4 > |data| || ofs + 4 >= WORD then Outside
      else
        var n := UnLE32(data[ofs..ofs + 4]);
        if TooFar((ofs + 4 + n) % WORD, len) then Mismatch
        else if ofs + 4 + n > |data| || ofs + 4 + n >= WORD then Outside
        else Got(ofs + 4 + n, Str(data[ofs + 4..ofs + 4 + n]))
    case KBuf =>
      if ofs > len || len > |data| then Outside
      else Got(len, Buf(data[ofs..len]))
  }

  function UnpackAll(data: Bytestring, len: uint32, ofs: uint32, kinds: seq<Kind>): Got<seq<Value>>
    decreases |kinds|
  {
    if kinds == [] then Got(ofs, [])
    else
      match UnpackOne(data, len, ofs, kinds[0])
      case Mismatch => Mismatch
      case Outside => Outside
      case Got(ofs', v) =>
        match UnpackAll(data, len, ofs', kinds[1..])
        case Mismatch => Mismatch
        case Outside => Outside
        case Got(end, vs) => Got(end, [v] + vs)
  }

  /** The header a packet's memory starts with. */
  function HeaderLen(data: Bytestring): uint32
    requires |data| >= HEADER
  {
    UnLE32(data[4..8])
  }

  /** The length and the offset that `Unpacker` works with: the first call sets them up from the raw header. */
  function Setup(data: Bytestring, len: uint32, ofs: uint32): (uint32, uint32)
    requires |data| >= HEADER
  {
    if ofs == 0 then ((HeaderLen(data) + HEADER) % WORD, HEADER) else (len, ofs)
  }

  /** `Unpacker<kinds>` on a packet in any state. */
  function Unpack(data: Bytestring, len: uint32, ofs: uint32, kinds: seq<Kind>): Got<seq<Value>>
    requires |data| >= HEADER
  {
    var (l, o) := Setup(data, len, ofs);
    UnpackAll(data, l, o, kinds)
  }

  /** How many bytes a packet with this length and this cursor has left. */
  function BytesLeft(len: uint32, ofs: uint32): (n: uint32)
    ensures if ofs <= len then ofs + n == len else ofs + n == len + WORD
  {
    (len - ofs) % WORD
  }

  // ---- Laws ----

  /** The results of two calls in a row, as the result of one. */
  function Then(a: Got<seq<Value>>, b: Got<seq<Value>>): Got<seq<Value>> {
    match a
    case Got(_, vs) => (match b case Got(end, ws) => Got(end, vs + ws) case _ => b)
    case _ => a
  }

  function KindOf(v: Value): Kind {
    match v
    case U32(_) => KU32
    case U8(_) => KU8
    case Str(_) => KStr
    case CStr(_) => KStr
    case Buf(_) => KBuf
  }

  function Kinds(vs: seq<Value>): (ks: seq<Kind>)
    ensures |ks| == |vs|
  {
    if vs == [] then [] else [KindOf(vs[0])] + Kinds(vs[1..])
  }

  /** What comes back of a value: strings up to their 32-bit size, `char *` up to its NUL and as a string. */
  function Back(v: Value): Value {
    match v
    case Str(s) => Str(Clip(s))
    case CStr(mem) => Str(Clip(CString(mem)))
    case Buf(b) => Buf(Clip(b))
    case _ => v
  }

  function BackAll(vs: seq<Value>): (r: seq<Value>)
    ensures |r| == |vs|
  {
    if vs == [] then [] else [Back(vs[0])] + BackAll(vs[1..])
  }

  /** A buffer takes whatever is left, so it can only come last. */
  ghost predicate BufferLast(vs: seq<Value>) {
    forall k :: 0 <= k < |vs| - 1 ==> !vs[k].Buf?
  }

  lemma WordAt(data: Bytestring, i: nat, n: uint32)
    requires At(data, i, LE32(n))
    ensures i + 4 <= |data| && UnLE32(data[i..i + 4]) == n
  {
    UnLE32LE32(n);
    AtSlice(data, i, LE32(n));
  }

  lemma NotTooFar(end: nat, len: uint32)
    requires HEADER <= end <= len
    ensures !TooFar(end, len) && end % WORD == end
  {
  }

  lemma StringUnpacks(data: Bytestring, len: uint32, ofs: uint32, s: Bytestring)
    requires HEADER <= ofs && ofs + 4 + |s| <= len <= |data| && |s| < WORD
    requires At(data, ofs, LE32(|s|) + s)
    ensures UnpackOne(data, len, ofs, KStr) == Got(ofs + 4 + |s|, Str(s))
  {
    AtSplit(data, ofs, LE32(|s|), s);
    WordAt(data, ofs, |s|);
    AtSlice(data, ofs + 4, s);
    NotTooFar(ofs + 4, len);
    NotTooFar(ofs + 4 + |s|, len);
  }

  lemma WordUnpacks(data: Bytestring, len: uint32, ofs: uint32, n: uint32)
    requires HEADER <= ofs && ofs + 4 <= len <= |data| && At(data, ofs, LE32(n))
    ensures UnpackOne(data, len, ofs, KU32) == Got(ofs + 4, U32(n))
  {
    WordAt(data, ofs, n);
  }

  lemma {:induction false} UnpackOneEncoded(data: Bytestring, len: uint32, ofs: uint32, v: Value)
    requires HEADER <= ofs && ofs + |Encode(v, false)| <= len <= |data|
    requires At(data, ofs, Encode(v, false))
    requires v.Buf? ==> ofs + |Encode(v, false)| == len
    ensures UnpackOne(data, len, ofs, KindOf(v)) == Got(ofs + |Encode(v, false)|, Back(v))
  {
    match v
    case U32(n) => WordUnpacks(data, len, ofs, n);
    case U8(b) => AtByte(data, ofs, [b], 0);
    case Str(s) => StringUnpacks(data, len, ofs, Clip(s));
    case CStr(mem) => StringUnpacks(data, len, ofs, Clip(CString(mem)));
    case Buf(b) => AtSlice(data, ofs, Clip(b));
  }

  lemma UnpackCons(data: Bytestring, len: uint32, ofs: uint32, kind: Kind, kinds: seq<Kind>)
    requires UnpackOne(data, len, ofs, kind).Got?
    ensures var one := UnpackOne(data, len, ofs, kind);
      UnpackAll(data, len, ofs, [kind] + kinds) == Then(Got(one.ofs, [one.val]), UnpackAll(data, len, one.ofs, kinds))
  {
    assert ([kind] + kinds)[1..] == kinds;
  }

  /** A buffer takes everything, so nothing may follow it. */
  ghost predicate Ends(vs: seq<Value>, more: Bytestring) {
    vs != [] && vs[|vs| - 1].Buf? ==> more == []
  }

  /** What `EncodeAll` wrote at `ofs` is unpacked to the values it was given, and the cursor ends before what
      follows. */
  lemma {:induction false} UnpackEncoded(data: Bytestring, len: uint32, ofs: uint32, vs: seq<Value>, more: Bytestring)
    requires HEADER <= ofs && ofs + |EncodeAll(vs, false)| + |more| == len <= |data|
    requires At(data, ofs, EncodeAll(vs, false) + more) && BufferLast(vs) && Ends(vs, more)
    ensures UnpackAll(data, len, ofs, Kinds(vs)) == Got(ofs + |EncodeAll(vs, false)|, BackAll(vs))
    decreases |vs|
  {
    if vs != [] {
      var v, rest := vs[0], vs[1..];
      assert rest == [] || !v.Buf?;
      Reassociate(Encode(v, false), EncodeAll(rest, false), more);
      var next := FirstUnpacks(data, len, ofs, v, EncodeAll(rest, false) + more);
      UnpackEncoded(data, len, next, rest, more);
      UnpackCons(data, len, ofs, KindOf(v), Kinds(rest));
    }
  }

  lemma {:induction false} FirstUnpacks(data: Bytestring, len: uint32, ofs: uint32, v: Value, more: Bytestring)
    returns (next: uint32)
    requires HEADER <= ofs && ofs + |Encode(v, false) + more| == len <= |data|
    requires At(data, ofs, Encode(v, false) + more) && (v.Buf? ==> more == [])
    ensures next == ofs + |Encode(v, false)| && next + |more| == len
    ensures At(data, next, more)
    ensures UnpackOne(data, len, ofs, KindOf(v)) == Got(next, Back(v))
  {
    next := ofs + |Encode(v, false)|;
    AtSplit(data, ofs, Encode(v, false), more);
    UnpackOneEncoded(data, len, ofs, v);
  }

  lemma WireHeader(data: Bytestring, msg: uint32, sync: uint32, payload: Bytestring)
    requires |payload| < WORD && At(data, 0, Wire(msg, sync, payload))
    ensures HeaderLen(data) == |payload|
    ensures UnLE32(data[0..4]) == msg && UnLE32(data[8..12]) == sync
    ensures At(data, HEADER, payload)
  {
    AtSplit(data, 0, LE32(msg) + LE32(|payload|) + LE32(sync), payload);
    AtSplit(data, 0, LE32(msg) + LE32(|payload|), LE32(sync));
    AtSplit(data, 0, LE32(msg), LE32(|payload|));
    WordAt(data, 0, msg);
    WordAt(data, 4, |payload|);
    WordAt(data, 8, sync);
  }

  lemma UnpackSetsUp(data: Bytestring, len: uint32, kinds: seq<Kind>, total: nat)
    requires |data| >= HEADER && total == HEADER + HeaderLen(data) < WORD
    ensures Setup(data, len, 0).0 == total
    ensures Unpack(data, len, 0, kinds) == UnpackAll(data, total, HEADER, kinds)
  {
  }

  /** Round trip: the leading values of a packet that was packed without flags, unpacked by their types, come back, and
      the bytes left are those of the values not unpacked yet. It does not matter what the header field holds and what
      the spare memory behind the packet holds, so a reset packet unpacks like a fresh one. */
  lemma {:induction false} PackUnpack(data: Bytestring, len: uint32, msg: uint32, sync: uint32, vs: seq<Value>,
                          ws: seq<Value>)
    requires BufferLast(vs + ws) && |EncodeAll(vs + ws, false)| < WORD - HEADER
    requires At(data, 0, Wire(msg, sync, EncodeAll(vs + ws, false)))
    ensures var r := Unpack(data, len, 0, Kinds(vs));
      r.Got? && r.val == BackAll(vs) && BytesLeft(Setup(data, len, 0).0, r.ofs) == |EncodeAll(ws, false)|
  {
    EncodeAppend(vs, ws, false);
    LeadingEnds(vs, ws);
    WireHeader(data, msg, sync, EncodeAll(vs + ws, false));
    PayloadUnpacks(data, len, vs, EncodeAll(ws, false));
  }

  /** What comes back of an argument, as its caller sees it: a `char *` is the bytes before its NUL. */
  ghost predicate Means(v: Value, r: Value) {
    match v
    case Str(s) => r == Str(Clip(s))
    case CStr(mem) => exists w: Bytestring, more: Bytestring :: mem == w + [0] + more && 0 !in w && r == Str(Clip(w))
    case Buf(b) => r == Buf(Clip(b))
    case _ => r == v
  }

  lemma MeansBack(v: Value, r: Value)
    requires Means(v, r)
    ensures Back(v) == r
  {
    match v
    case CStr(mem) =>
      var w: Bytestring, more: Bytestring :| mem == w + [0] + more && 0 !in w && r == Str(Clip(w));
      Terminated(w, more);
    case _ =>
  }

  lemma {:induction false} BackAllAt(vs: seq<Value>, k: nat)
    requires k < |vs|
    ensures BackAll(vs)[k] == Back(vs[k])
    decreases |vs|
  {
    if k > 0 {
      BackAllAt(vs[1..], k - 1);
    }
  }

  lemma {:induction false} AllMeanBack(vs: seq<Value>, rs: seq<Value>)
    requires |vs| == |rs| && forall k :: 0 <= k < |vs| ==> Means(vs[k], rs[k])
    ensures BackAll(vs) == rs
  {
    forall k | 0 <= k < |vs| ensures BackAll(vs)[k] == rs[k] {
      BackAllAt(vs, k);
      MeansBack(vs[k], rs[k]);
    }
  }

  /** The round trip in the callers' terms: strings come back up to their 32-bit size, and a `char *` comes back as the
      string before its NUL, whatever lies behind it in memory. */
  lemma {:induction false} PackUnpackMeant(data: Bytestring, len: uint32, msg: uint32, sync: uint32, vs: seq<Value>,
                          ws: seq<Value>, rs: seq<Value>)
    requires BufferLast(vs + ws) && |EncodeAll(vs + ws, false)| < WORD - HEADER
    requires At(data, 0, Wire(msg, sync, EncodeAll(vs + ws, false)))
    requires |rs| == |vs| && forall k :: 0 <= k < |vs| ==> Means(vs[k], rs[k])
    ensures var r := Unpack(data, len, 0, Kinds(vs)); r.Got? && r.val == rs
  {
    PackUnpack(data, len, msg, sync, vs, ws);
    AllMeanBack(vs, rs);
  }

  lemma LeadingEnds(vs: seq<Value>, ws: seq<Value>)
    requires BufferLast(vs + ws)
    ensures BufferLast(vs) && Ends(vs, EncodeAll(ws, false))
  {
    assert forall k :: 0 <= k < |vs| ==> (vs + ws)[k] == vs[k];
    if ws != [] && vs != [] {
      assert !vs[|vs| - 1].Buf?;
    }
  }

  lemma {:induction false} PayloadUnpacks(data: Bytestring, len: uint32, vs: seq<Value>, more: Bytestring)
    requires BufferLast(vs) && Ends(vs, more) && |EncodeAll(vs, false)| + |more| < WORD - HEADER
    requires At(data, HEADER, EncodeAll(vs, false) + more) && HeaderLen(data) == |EncodeAll(vs, false)| + |more|
    ensures Unpack(data, len, 0, Kinds(vs)) == Got(HEADER + |EncodeAll(vs, false)|, BackAll(vs))
    ensures Setup(data, len, 0).0 == HEADER + |EncodeAll(vs, false)| + |more|
  {
    var total := HEADER + |EncodeAll(vs, false)| + |more|;
    UnpackSetsUp(data, len, Kinds(vs), total);
    UnpackEncoded(data, total, HEADER, vs, more);
  }

  lemma {:induction false} EncodeAppend(vs: seq<Value>, ws: seq<Value>, ber: bool)
    ensures EncodeAll(vs + ws, ber) == EncodeAll(vs, ber) + EncodeAll(ws, ber)
    decreases |vs|
  {
    if vs == [] {
      assert vs + ws == ws;
    } else {
      assert (vs + ws)[1..] == vs[1..] + ws;
      EncodeAppend(vs[1..], ws, ber);
      Reassociate(Encode(vs[0], ber), EncodeAll(vs[1..], ber), EncodeAll(ws, ber));
    }
  }

  lemma {:induction false} UnpackAllSplit(data: Bytestring, len: uint32, ofs: uint32, a: seq<Kind>, b: seq<Kind>)
    ensures var first := UnpackAll(data, len, ofs, a);
      UnpackAll(data, len, ofs, a + b) ==
      Then(first, if first.Got? then UnpackAll(data, len, first.ofs, b) else first)
    decreases |a|
  {
    if a == [] {
      assert a + b == b;
      var r := UnpackAll(data, len, ofs, b);
      if r.Got? {
        assert [] + r.val == r.val;
      }
    } else {
      assert (a + b)[1..] == a[1..] + b;
      var one := UnpackOne(data, len, ofs, a[0]);
      if one.Got? {
        UnpackAllSplit(data, len, one.ofs, a[1..], b);
        var first := UnpackAll(data, len, one.ofs, a[1..]);
        if first.Got? {
          var second := UnpackAll(data, len, first.ofs, b);
          if second.Got? {
            assert [one.val] + (first.val + second.val) == ([one.val] + first.val) + second.val;
          }
        }
      }
    }
  }

  /** A cursor past the header stays past it, so only the first call sets up. */
  lemma {:induction false} UnpackAdvances(data: Bytestring, len: uint32, ofs: uint32, kinds: seq<Kind>)
    ensures var r := UnpackAll(data, len, ofs, kinds); r.Got? ==> r.ofs >= ofs
    decreases |kinds|
  {
    if kinds != [] {
      var one := UnpackOne(data, len, ofs, kinds[0]);
      if one.Got? {
        UnpackAdvances(data, len, one.ofs, kinds[1..]);
      }
    }
  }

  /** Unpacking in several calls equals one combined call, on every packet in every state: the second call starts from
      the length and the offset that the first call left. */
  lemma {:induction false} UnpackSplit(data: Bytestring, len: uint32, ofs: uint32, a: seq<Kind>, b: seq<Kind>)
    requires |data| >= HEADER
    ensures var first := Unpack(data, len, ofs, a);
      Unpack(data, len, ofs, a + b) ==
      Then(first, if first.Got? then Unpack(data, Setup(data, len, ofs).0, first.ofs, b) else first)
  {
    var (l, o) := Setup(data, len, ofs);
    UnpackAllSplit(data, l, o, a, b);
    UnpackAdvances(data, l, o, a);
  }

  // ---- Packets with variable-length sizes ----

  /** A reader of packets packed with `BER_PACK`: the values, and what follows them. */
  function UnpackBerOne(s: Bytestring, kind: Kind): Option<(Value, Bytestring)> {
    match kind
    case KU32 => if |s| < 4 then None else Some((U32(UnLE32(s[..4])), s[4..]))
    case KU8 => if s == [] then None else Some((U8(s[0]), s[1..]))
    case KStr =>
      (match IprotoBer.Decode(s, 0)
       case None => None
       case Some((n, rest)) => if |rest| < n then None else Some((Str(rest[..n]), rest[n..])))
    case KBuf => Some((Buf(s), []))
  }

  function UnpackBer(s: Bytestring, kinds: seq<Kind>): Option<(seq<Value>, Bytestring)>
    decreases |kinds|
  {
    if kinds == [] then Some(([], s))
    else
      match UnpackBerOne(s, kinds[0])
      case None => None
      case Some((v, rest)) =>
        match UnpackBer(rest, kinds[1..])
        case None => None
        case Some((vs, end)) => Some(([v] + vs, end))
  }

  lemma BerString(t: Bytestring, more: Bytestring)
    requires |t| < WORD
    ensures UnpackBerOne(Size(|t|, true) + t + more, KStr) == Some((Str(t), more))
  {
    Reassociate(Size(|t|, true), t, more);
    IprotoBer.DecodeBer(|t|, t + more);
    assert (t + more)[..|t|] == t && (t + more)[|t|..] == more;
  }

  lemma {:induction false} BerOne(v: Value, more: Bytestring)
    requires v.Buf? ==> more == []
    ensures UnpackBerOne(Encode(v, true) + more, KindOf(v)) == Some((Back(v), more))
  {
    var s := Encode(v, true) + more;
    match v
    case U32(n) =>
      UnLE32LE32(n);
      assert s[..4] == LE32(n) && s[4..] == more;
    case U8(b) => assert s[1..] == more;
    case Str(t) => BerString(Clip(t), more);
    case CStr(mem) => BerString(Clip(CString(mem)), more);
    case Buf(b) => assert s == Clip(b);
  }

  /** Round trip with variable-length sizes: the values come back and leave what follows. */
  lemma {:induction false} BerPackUnpack(vs: seq<Value>, more: Bytestring)
    requires BufferLast(vs) && Ends(vs, more)
    ensures UnpackBer(EncodeAll(vs, true) + more, Kinds(vs)) == Some((BackAll(vs), more))
    decreases |vs|
  {
    if vs == [] {
      assert EncodeAll(vs, true) + more == more;
    } else {
      var v, rest := vs[0], vs[1..];
      assert rest == [] || !v.Buf?;
      Reassociate(Encode(v, true), EncodeAll(rest, true), more);
      var after := EncodeAll(rest, true) + more;
      assert rest == [] ==> after == more;
      BerOne(v, after);
      BerPackUnpack(rest, more);
      assert Kinds(vs)[0] == KindOf(v) && Kinds(vs)[1..] == Kinds(rest);
    }
  }

  // ---- Which reads the length check stops ----

  /** Where the value at the cursor ends, or, if the size in front of a string is not all there, where that ends. */
  function ValueEnd(data: Bytestring, ofs: nat, kind: Kind): nat
    requires ofs <= |data|
  {
    match kind
    case KU32 => ofs + 4
    case KU8 => ofs + 1
    case KStr => if ofs + 4 <= |data| then ofs + 4 + UnLE32(data[ofs..ofs + 4]) else ofs + 4
    case KBuf => |data|
  }

  /** The end that the check looks at: that of a string is computed in 32 bits. */
  function CheckedEnd(data: Bytestring, ofs: nat, kind: Kind): nat
    requires ofs <= |data|
  {
    var end := ValueEnd(data, ofs, kind);
    if kind == KStr && ofs + 4 <= |data| then end % WORD else end
  }

  /** The check forgets that the length it compares with already counts the header: it lets a value pass that ends up to
      a header's length behind the memory. */
  predicate Stopped(end: nat, total: nat) {
    end < HEADER || total + HEADER < end
  }

  /** Exactly when a value of a received packet is read, when the check stops it, and when it is read from outside the
      packet's memory, for every cursor behind the header. */
  lemma {:induction false} UnpackOneExactly(data: Bytestring, ofs: uint32, kind: Kind)
    requires HEADER <= ofs <= |data| < WORD
    ensures var r, end := UnpackOne(data, |data|, ofs, kind), ValueEnd(data, ofs, kind);
      var stopped := Stopped(CheckedEnd(data, ofs, kind), |data|);
      && (r.Got? <==> end <= |data|)
      && (r == Outside <==> |data| < end && !stopped)
      && (r == Mismatch <==> |data| < end && stopped)
      && (r.Got? ==> r.ofs == end)
  {
  }

  /** Without a wrap-around the check is late by exactly one header. */
  lemma {:induction false} UnpackOneBounds(data: Bytestring, ofs: uint32, kind: Kind)
    requires HEADER <= ofs <= |data| < WORD && ValueEnd(data, ofs, kind) < WORD
    ensures var r, end := UnpackOne(data, |data|, ofs, kind), ValueEnd(data, ofs, kind);
      && (r.Got? <==> end <= |data|)
      && (r == Outside <==> |data| < end <= |data| + HEADER)
      && (r == Mismatch <==> |data| + HEADER < end)
  {
    UnpackOneExactly(data, ofs, kind);
  }

  /** The end that is checked of the first value that does not fit, if there is one. */
  function FirstMisfit(data: Bytestring, ofs: nat, kinds: seq<Kind>): Option<nat>
    requires ofs <= |data|
    decreases |kinds|
  {
    if kinds == [] then None
    else
      var end := ValueEnd(data, ofs, kinds[0]);
      if end <= |data| then FirstMisfit(data, end, kinds[1..]) else Some(CheckedEnd(data, ofs, kinds[0]))
  }

  /** The same for a list of values: the first one that does not fit decides. */
  lemma {:induction false} UnpackAllExactly(data: Bytestring, ofs: uint32, kinds: seq<Kind>)
    requires HEADER <= ofs <= |data| < WORD
    ensures var r, misfit := UnpackAll(data, |data|, ofs, kinds), FirstMisfit(data, ofs, kinds);
      && (r.Got? <==> misfit.None?)
      && (r == Outside <==> misfit.Some? && !Stopped(misfit.value, |data|))
      && (r == Mismatch <==> misfit.Some? && Stopped(misfit.value, |data|))
    decreases |kinds|
  {
    if kinds != [] {
      UnpackOneExactly(data, ofs, kinds[0]);
      var one := UnpackOne(data, |data|, ofs, kinds[0]);
      if one.Got? {
        UnpackAllExactly(data, one.ofs, kinds[1..]);
      }
    }
  }

  /** The bytes that numbers take. */
  function Need(kinds: seq<Kind>): nat {
    if kinds == [] then 0 else (if kinds[0] == KU32 then 4 else 1) + Need(kinds[1..])
  }

  predicate NumbersOnly(kinds: seq<Kind>) {
    forall k :: 0 <= k < |kinds| ==> kinds[k] == KU32 || kinds[k] == KU8
  }

  lemma {:induction false} NumbersFit(data: Bytestring, ofs: nat, kinds: seq<Kind>)
    requires ofs <= |data| < WORD && NumbersOnly(kinds)
    ensures var misfit := FirstMisfit(data, ofs, kinds);
      && (misfit.None? <==> ofs + Need(kinds) <= |data|)
      && (misfit.Some? ==> |data| < misfit.value <= |data| + 4)
    decreases |kinds|
  {
    if kinds != [] {
      var end := ValueEnd(data, ofs, kinds[0]);
      if end <= |data| {
        NumbersFit(data, end, kinds[1..]);
      }
    }
  }

  /** Numbers unpacked from a whole received packet: they are never reported missing. If the payload is too short for
      them, the last ones are read from outside the memory. */
  lemma {:induction false} NumbersExactly(data: Bytestring, len: uint32, kinds: seq<Kind>)
    requires HEADER <= |data| < WORD && |data| == HEADER + HeaderLen(data) && NumbersOnly(kinds)
    ensures var r := Unpack(data, len, 0, kinds);
      && (r.Got? <==> Need(kinds) <= HeaderLen(data))
      && (r == Outside <==> HeaderLen(data) < Need(kinds))
  {
    UnpackSetsUp(data, len, kinds, |data|);
    UnpackAllExactly(data, HEADER, kinds);
    NumbersFit(data, HEADER, kinds);
  }

  /** The smallest case: one number, unpacked from an empty packet. */
  lemma EmptyPacketRead(msg: uint32, sync: uint32)
    ensures Unpack(Wire(msg, sync, []), 0, 0, [KU32]) == Outside
  {
    var data := Wire(msg, sync, []);
    WireHeader(data, msg, sync, []);
    NumbersExactly(data, 0, [KU32]);
    assert Need([KU32]) == 4 by { assert [KU32][1..] == []; }
  }
}

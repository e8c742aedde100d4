/** `IProto::Packet` with the packing and unpacking operations as the program runs them. While a packet is being packed
    its `ofs` field holds the capacity of its memory; afterwards it is the read cursor. */
module IprotoPacket {
  import opened Bytes
  import opened IprotoCodec
  import IprotoBer

  /** The bound on 32-bit growth: a buffer that has to grow gets twice its capacity and the new bytes, which is less
      than three times the new length. */
  ghost predicate Grows(ofs: uint32, was: uint32, len: uint32) {
    ofs == was || ofs <= 3 * len
  }

  class Packet {
    var msg: uint32
    var len: uint32
    var sync: uint32
    var data: array<byte>
    var ofs: uint32

    /** A packet being packed: `ofs` is its capacity and `len` counts the header. */
    ghost predicate Packing()
      reads this, data
    {
      data.Length == ofs && HEADER <= len <= ofs
    }

    /** What has been packed so far. */
    ghost function Packed(): Bytestring
      requires Packing()
      reads this, data
    {
      data[HEADER..len]
    }

    /** The first two statements of `Packer`. */
    constructor ForPacking(cmd: uint32, seqno: uint32, capacity: uint32)
      requires HEADER <= capacity
      ensures Packing() && Packed() == [] && ofs == capacity && len == HEADER
      ensures msg == cmd && sync == seqno && fresh(data)
    {
      msg, len, sync, ofs := cmd, HEADER, seqno, capacity;
      data := new byte[capacity];
    }

    /** `Packet(const PacketPtr *buf)`: a copy of the header and the payload that stand at the start of a buffer. */
    constructor FromWire(buf: Bytestring)
      requires |buf| >= HEADER && HEADER + HeaderLen(buf) <= |buf|
      ensures ofs == 0 && len == HeaderLen(buf) && msg == UnLE32(buf[0..4]) && sync == UnLE32(buf[8..12])
      ensures data[..] == buf[..HEADER + HeaderLen(buf)] && fresh(data)
    {
      msg, len, sync, ofs := UnLE32(buf[0..4]), UnLE32(buf[4..8]), UnLE32(buf[8..12]), 0;
      data := new byte[HEADER + HeaderLen(buf)](i requires 0 <= i < HEADER + HeaderLen(buf) <= |buf| => buf[i]);
    }

    /** `realloc` to the capacity `ofs`, which has just been raised. */
    method Realloc()
      requires HEADER <= len <= data.Length <= ofs
      modifies this`data
      ensures data.Length == ofs && fresh(data)
      ensures data[..len] == old(data[..len])
    {
      ghost var was := data[..len];
      var more := new byte[ofs];
      for i := 0 to data.Length
        invariant data == old(data) && data[..len] == was
        invariant forall k :: 0 <= k < i ==> more[k] == data[k]
      {
        more[i] := data[i];
      }
      data := more;
      assert data[..len] == was;
    }

    /** `memcpy` behind what is packed. */
    method Store(bytes: Bytestring)
      requires Packing() && len + |bytes| <= ofs
      modifies data
      ensures data[..] == old(data[..len]) + bytes + old(data[len + |bytes|..])
    {
      ghost var was := data[..];
      for i := 0 to |bytes|
        invariant forall k :: 0 <= k < data.Length ==> data[k] == if len <= k < len + i then bytes[k - len] else was[k]
      {
        data[len + i] := bytes[i];
      }
    }

    /** Room for `n` bytes, the way every packer makes it. */
    method Reserve(n: uint32)
      requires Packing() && 3 * (len + n) < WORD
      modifies this`ofs, this`data
      ensures Packing() && Packed() == old(Packed()) && len + n <= ofs
      ensures Grows(ofs, old(ofs), len + n)
      ensures data == old(data) || fresh(data)
    {
      if len + n > ofs {
        ghost var was := data[..len];
        ofs := (ofs * 2 + n) % WORD;
        Realloc();
        assert data[HEADER..len] == data[..len][HEADER..] == was[HEADER..];
      }
    }

    /** Every packer but `pack_bersize`: make room, copy, count. */
    method Append(bytes: Bytestring)
      requires Packing() && 3 * (len + |bytes|) < WORD
      modifies this`ofs, this`data, this`len, data
      ensures Packing() && Packed() == old(Packed()) + bytes && len == old(len) + |bytes|
      ensures Grows(ofs, old(ofs), len)
      ensures data == old(data) || fresh(data)
    {
      ghost var was := Packed();
      Reserve(|bytes|);
      assert data[HEADER..len] == was;
      Store(bytes);
      len := len + |bytes|;
      assert data[HEADER..len] == was + bytes;
    }

    method PackU32(n: uint32)
      requires Packing() && 3 * (len + 4) < WORD
      modifies this`ofs, this`data, this`len, data
      ensures Packing() && Packed() == old(Packed()) + LE32(n) && len == old(len) + 4
      ensures Grows(ofs, old(ofs), len)
      ensures data == old(data) || fresh(data)
    {
      Append(LE32(n));
    }

    method PackU8(b: byte)
      requires Packing() && 3 * (len + 1) < WORD
      modifies this`ofs, this`data, this`len, data
      ensures Packing() && Packed() == old(Packed()) + [b] && len == old(len) + 1
      ensures Grows(ofs, old(ofs), len)
      ensures data == old(data) || fresh(data)
    {
      Append([b]);
    }

    method PackBersize(sz: uint32)
      requires Packing() && 3 * (len + |IprotoBer.Ber(sz)|) < WORD
      modifies this`ofs, this`data, this`len, data
      ensures Packing() && Packed() == old(Packed()) + IprotoBer.Ber(sz) && len == old(len) + |IprotoBer.Ber(sz)|
      ensures Grows(ofs, old(ofs), len)
      ensures data == old(data) || fresh(data)
    {
      if sz >= 0x80 {
        if sz >= 0x4000 {
          if sz >= 0x20_0000 {
            if sz >= 0x1000_0000 {
              PackU8(IprotoBer.Group(sz, 0x1000_0000));
            }
            PackU8(IprotoBer.Group(sz, 0x20_0000));
          }
          PackU8(IprotoBer.Group(sz, 0x4000));
        }
        PackU8(IprotoBer.Group(sz, 0x80));
      }
      PackU8(sz % 128);
    }

    /** A `std::string` or a `char *`: its size, then its bytes. */
    method PackString(val: Bytestring, ber: bool)
      requires Packing() && 3 * (len + |Size(|Clip(val)|, ber)| + |Clip(val)|) < WORD
      modifies this`ofs, this`data, this`len, data
      ensures Packing() && Packed() == old(Packed()) + (Size(|Clip(val)|, ber) + Clip(val))
      ensures len == old(len) + |Size(|Clip(val)|, ber)| + |Clip(val)|
      ensures Grows(ofs, old(ofs), len)
      ensures data == old(data) || fresh(data)
    {
      ghost var was := Packed();
      var sz: uint32 := |val| % WORD;
      if ber {
        PackBersize(sz);
      } else {
        PackU32(sz);
      }
      Append(val[..sz]);
      Reassociate(was, Size(sz, ber), Clip(val));
    }

    /** `PackerSetValue` */
    method PackValue(v: Value, ber: bool)
      requires Packing() && 3 * (len + |Encode(v, ber)|) < WORD
      modifies this`ofs, this`data, this`len, data
      ensures Packing() && Packed() == old(Packed()) + Encode(v, ber) && len == old(len) + |Encode(v, ber)|
      ensures Grows(ofs, old(ofs), len)
      ensures data == old(data) || fresh(data)
    {
      match v
      case U32(n) => PackU32(n);
      case U8(b) => PackU8(b);
      case Str(s) => PackString(s, ber);
      case CStr(mem) => PackString(CString(mem), ber);
      case Buf(b) => Append(b[..|b| % WORD]);
    }

    /** `PackerImpl` */
    method PackAll(vs: seq<Value>, ber: bool)
      requires Packing() && 3 * (len + |EncodeAll(vs, ber)|) < WORD
      modifies this`ofs, this`data, this`len, data
      ensures Packing() && Packed() == old(Packed()) + EncodeAll(vs, ber) && len == old(len) + |EncodeAll(vs, ber)|
      ensures Grows(ofs, old(ofs), len)
      ensures data == old(data) || fresh(data)
      decreases |vs|
    {
      ghost var was := Packed();
      if vs == [] {
        assert was + EncodeAll(vs, ber) == was;
      } else {
        PackValue(vs[0], ber);
        PackAll(vs[1..], ber);
        Reassociate(was, Encode(vs[0], ber), EncodeAll(vs[1..], ber));
      }
    }

    /** The last statements of `Packer`: the field gets its normal meaning, and the raw header is written. */
    method FinishPacking()
      requires Packing()
      modifies this`ofs, this`len, data
      ensures ofs == 0 && len == old(len) - HEADER
      ensures data[..] == old(LE32(msg) + LE32(len - HEADER) + LE32(sync) + Packed() + data[len..])
    {
      ghost var was := data[..];
      ofs := 0;
      len := len - HEADER;
      WriteHeader(LE32(msg) + LE32(len) + LE32(sync));
      assert was[HEADER..] == was[HEADER..len + HEADER] + was[len + HEADER..];
    }

    /** `memcpy(pkt.data, &pkt.hdr, sizeof(pkt.hdr))` */
    method WriteHeader(hdr: Bytestring)
      requires |hdr| == HEADER <= data.Length
      modifies data
      ensures data[..] == hdr + old(data[HEADER..])
    {
      ghost var was := data[..];
      for i := 0 to HEADER
        invariant forall k :: 0 <= k < data.Length ==> data[k] == if k < i then hdr[k] else was[k]
      {
        data[i] := hdr[i];
      }
    }

    // ---- Reading ----

    /** `Reset`: the cursor goes back to the start, and the header is the one in memory. */
    method Reset()
      requires data.Length >= HEADER
      modifies this`ofs, this`msg, this`len, this`sync
      ensures ofs == 0 && len == HeaderLen(data[..]) && msg == UnLE32(data[..][0..4]) && sync == UnLE32(data[..][8..12])
    {
      ofs := 0;
      LoadHeader();
    }

    /** `memcpy(&pkt.hdr, pkt.data, sizeof(pkt.hdr))` */
    method LoadHeader()
      requires data.Length >= HEADER
      modifies this`msg, this`len, this`sync
      ensures len == HeaderLen(data[..]) && msg == UnLE32(data[..][0..4]) && sync == UnLE32(data[..][8..12])
    {
      assert data[..][0..4] == data[0..4] && data[..][4..8] == data[4..8] && data[..][8..12] == data[8..12];
      msg, len, sync := UnLE32(data[0..4]), UnLE32(data[4..8]), UnLE32(data[8..12]);
    }

    /** `BytesLeft` */
    function BytesLeft(): (n: uint32)
      reads this
      ensures ofs <= len ==> ofs + n == len
    {
      IprotoCodec.BytesLeft(len, ofs)
    }

    /** `UnpackerGetValue` */
    method UnpackValue(kind: Kind) returns (r: Got<Value>)
      modifies this`ofs
      ensures r == UnpackOne(data[..], len, old(ofs), kind)
      ensures r.Got? ==> ofs == r.ofs
    {
      match kind
      case KU32 => r := UnpackU32();
      case KU8 => r := UnpackU8();
      case KStr => r := UnpackString();
      case KBuf =>
        if ofs > len || len > data.Length {
          return Outside;
        }
        var wasLen := len - ofs;
        ofs := ofs + wasLen;
        return Got(ofs, Buf(data[ofs - wasLen..ofs]));
    }

    method UnpackU32() returns (r: Got<Value>)
      modifies this`ofs
      ensures r == UnpackOne(data[..], len, old(ofs), KU32)
      ensures r.Got? ==> ofs == r.ofs && r.val.U32?
    {
      if TooFar(ofs + 4, len) {
        return Mismatch;
      }
      if ofs + 4 >= WORD || ofs + 4 > data.Length {
        return Outside;
      }
      assert data[..][ofs..ofs + 4] == data[ofs..ofs + 4];
      ofs := ofs + 4;
      return Got(ofs, U32(UnLE32(data[ofs - 4..ofs])));
    }

    method UnpackU8() returns (r: Got<Value>)
      modifies this`ofs
      ensures r == UnpackOne(data[..], len, old(ofs), KU8)
      ensures r.Got? ==> ofs == r.ofs
    {
      if TooFar(ofs + 1, len) {
        return Mismatch;
      }
      if ofs + 1 >= WORD || ofs + 1 > data.Length {
        return Outside;
      }
      ofs := ofs + 1;
      return Got(ofs, U8(data[ofs - 1]));
    }

    method UnpackString() returns (r: Got<Value>)
      modifies this`ofs
      ensures r == UnpackOne(data[..], len, old(ofs), KStr)
      ensures r.Got? ==> ofs == r.ofs
    {
      ghost var ofs0 := ofs;
      var size := UnpackU32();
      if !size.Got? {
        return if size.Mismatch? then Mismatch else Outside;
      }
      var n := size.val.n;
      if TooFar((ofs + n) % WORD, len) {
        return Mismatch;
      }
      if ofs + n >= WORD || ofs + n > data.Length {
        return Outside;
      }
      assert data[..][ofs0 + 4..ofs0 + 4 + n] == data[ofs..ofs + n];
      ofs := ofs + n;
      return Got(ofs, Str(data[ofs - n..ofs]));
    }

    /** `UnpackerImpl` */
    method UnpackValues(kinds: seq<Kind>) returns (r: Got<seq<Value>>)
      modifies this`ofs
      ensures r == UnpackAll(data[..], len, old(ofs), kinds)
      ensures r.Got? ==> ofs == r.ofs
      decreases |kinds|
    {
      if kinds == [] {
        return Got(ofs, []);
      }
      var one := UnpackValue(kinds[0]);
      if !one.Got? {
        return if one.Mismatch? then Mismatch else Outside;
      }
      var rest := UnpackValues(kinds[1..]);
      return match rest case Got(end, vs) => Got(end, [one.val] + vs) case _ => rest;
    }

    /** `Unpacker`: the first call on a packet takes its header from memory and raises the length by the header's
        size. */
    method Unpacker(kinds: seq<Kind>) returns (r: Got<seq<Value>>)
      requires data.Length >= HEADER
      modifies this`ofs, this`msg, this`len, this`sync
      ensures r == Unpack(data[..], old(len), old(ofs), kinds)
      ensures len == Setup(data[..], old(len), old(ofs)).0
      ensures r.Got? ==> ofs == r.ofs && BytesLeft() == IprotoCodec.BytesLeft(len, r.ofs)
    {
      if ofs == 0 {
        LoadHeader();
        ofs := (ofs + HEADER) % WORD;
        len := (len + HEADER) % WORD;
      }
      r := UnpackValues(kinds);
    }
  }

  /** `Packer`, with the value of the global sequence counter before and after. */
  method Packer(cmd: uint32, ber: bool, args: seq<Value>, packerSeq: uint32) returns (pkt: Packet, next: uint32)
    requires HEADER + 4 * |args| < WORD && 3 * (HEADER + |EncodeAll(args, ber)|) < WORD
    ensures fresh(pkt) && fresh(pkt.data)
    ensures pkt.ofs == 0 && pkt.msg == cmd && pkt.sync == packerSeq && pkt.len == |EncodeAll(args, ber)|
    ensures At(pkt.data[..], 0, Wire(cmd, packerSeq, EncodeAll(args, ber)))
    ensures pkt.data.Length == HEADER + 4 * |args| || pkt.data.Length <= 3 * (HEADER + |EncodeAll(args, ber)|)
    ensures next == (packerSeq + 1) % WORD
  {
    next := (packerSeq + 1) % WORD;
    pkt := new Packet.ForPacking(cmd, packerSeq, HEADER + 4 * |args|);
    pkt.PackAll(args, ber);
    ghost var payload := pkt.Packed();
    assert payload == EncodeAll(args, ber);
    ghost var spare := pkt.data[pkt.len..];
    pkt.FinishPacking();
    assert pkt.data[..] == Wire(cmd, packerSeq, payload) + spare;
  }
}

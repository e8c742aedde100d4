/** The variable-length sizes of `pack_bersize`: groups of seven bits, the most significant first, with the top bit set
    on every byte but the last. */
module IprotoBer {
  import opened Bytes

  /** The `k`-th group of seven bits as a continuation byte, `(sz >> 7k) | 0x80` cut to eight bits. */
  function Group(sz: uint32, unit: nat): byte
    requires unit > 0
  {
    128 + sz / unit % 128
  }

  function Ber(sz: uint32): (w: Bytestring)
    ensures 1 <= |w| <= 5
  {
    (if sz >= 0x1000_0000 then [Group(sz, 0x1000_0000)] else [])
    + (if sz >= 0x20_0000 then [Group(sz, 0x20_0000)] else [])
    + (if sz >= 0x4000 then [Group(sz, 0x4000)] else [])
    + (if sz >= 0x80 then [Group(sz, 0x80)] else [])
    + [sz % 128]
  }

  /** The decoder of such sizes: the number, and what follows it. */
  function Decode(s: Bytestring, acc: nat): Option<(nat, Bytestring)>
    decreases |s|
  {
    if s == [] then None
    else if s[0] < 128 then Some((acc * 128 + s[0], s[1..]))
    else Decode(s[1..], acc * 128 + (s[0] - 128))
  }

  lemma DecodeMore(b: byte, s: Bytestring, acc: nat)
    requires b >= 128
    ensures Decode([b] + s, acc) == Decode(s, acc * 128 + (b - 128))
  {
    assert ([b] + s)[1..] == s;
  }

  lemma DecodeLast(b: byte, s: Bytestring, acc: nat)
    requires b < 128
    ensures Decode([b] + s, acc) == Some((acc * 128 + b, s))
  {
    assert ([b] + s)[1..] == s;
  }

  lemma {:induction false} Decode1(sz: uint32, acc: nat, s: Bytestring)
    requires acc == sz / 0x80
    ensures Decode([sz % 128] + s, acc) == Some((sz as nat, s))
  {
    DecodeLast(sz % 128, s, acc);
  }

  lemma {:induction false} Decode2(sz: uint32, acc: nat, s: Bytestring)
    requires acc == sz / 0x4000
    ensures Decode([Group(sz, 0x80)] + ([sz % 128] + s), acc) == Some((sz as nat, s))
  {
    DecodeMore(Group(sz, 0x80), [sz % 128] + s, acc);
    Decode1(sz, sz / 0x80, s);
  }

  lemma {:induction false} Decode3(sz: uint32, acc: nat, s: Bytestring)
    requires acc == sz / 0x20_0000
    ensures Decode([Group(sz, 0x4000)] + ([Group(sz, 0x80)] + ([sz % 128] + s)), acc) == Some((sz as nat, s))
  {
    DecodeMore(Group(sz, 0x4000), [Group(sz, 0x80)] + ([sz % 128] + s), acc);
    Decode2(sz, sz / 0x4000, s);
  }

  lemma {:induction false} Decode4(sz: uint32, acc: nat, s: Bytestring)
    requires acc == sz / 0x1000_0000
    ensures Decode([Group(sz, 0x20_0000)] + ([Group(sz, 0x4000)] + ([Group(sz, 0x80)] + ([sz % 128] + s))), acc) ==
      Some((sz as nat, s))
  {
    DecodeMore(Group(sz, 0x20_0000), [Group(sz, 0x4000)] + ([Group(sz, 0x80)] + ([sz % 128] + s)), acc);
    Decode3(sz, sz / 0x20_0000, s);
  }

  /** Round trip: a size followed by anything decodes to the size and leaves what follows. */
  lemma {:induction false} DecodeBer(sz: uint32, s: Bytestring)
    ensures Decode(Ber(sz) + s, 0) == Some((sz as nat, s))
  {
    var w := Ber(sz) + s;
    var t1 := [sz % 128] + s;
    var t2 := [Group(sz, 0x80)] + t1;
    var t3 := [Group(sz, 0x4000)] + t2;
    var t4 := [Group(sz, 0x20_0000)] + t3;
    if sz < 0x80 {
      assert w == t1;
      Decode1(sz, 0, s);
    } else if sz < 0x4000 {
      assert w == t2;
      Decode2(sz, 0, s);
    } else if sz < 0x20_0000 {
      assert w == t3;
      Decode3(sz, 0, s);
    } else if sz < 0x1000_0000 {
      assert w == t4;
      Decode4(sz, 0, s);
    } else {
      assert w == [Group(sz, 0x1000_0000)] + t4;
      DecodeMore(Group(sz, 0x1000_0000), t4, 0);
      Decode4(sz, sz / 0x1000_0000, s);
    }
  }

  function Pow128(n: nat): nat {
    if n == 0 then 1 else 128 * Pow128(n - 1)
  }

  /** A code of `n` bytes stands for a number below 128 to the `n`. */
  lemma {:induction false} DecodeBound(w: Bytestring, acc: nat, more: nat)
    requires Decode(w, acc).Some? && acc < Pow128(more)
    ensures |Decode(w, acc).value.1| < |w|
    ensures Decode(w, acc).value.0 < Pow128(more + |w| - |Decode(w, acc).value.1|)
    decreases |w|
  {
    if w[0] >= 128 {
      DecodeBound(w[1..], acc * 128 + (w[0] - 128), more + 1);
    }
  }

  /** No shorter code decodes to the same size. */
  lemma {:induction false} BerMinimal(sz: uint32, w: Bytestring)
    requires Decode(w, 0) == Some((sz as nat, []))
    ensures |Ber(sz)| <= |w|
  {
    assert Pow128(0) == 1;
    DecodeBound(w, 0, 0);
    if |w| < 5 {
      assert Pow128(1) == 0x80 && Pow128(2) == 0x4000 && Pow128(3) == 0x20_0000 && Pow128(4) == 0x1000_0000;
    }
  }

  /** No code is a proper prefix of another, and different sizes have different codes. */
  lemma {:induction false} BerPrefixFree(a: uint32, b: uint32)
    requires Ber(a) <= Ber(b)
    ensures a == b
  {
    var rest := Ber(b)[|Ber(a)|..];
    assert Ber(b) == Ber(a) + rest && Ber(b) + [] == Ber(b);
    DecodeBer(a, rest);
    DecodeBer(b, []);
  }

  /** A whole list of sizes decodes to the list: the codes need no separators. */
  function BerAll(sizes: seq<uint32>): Bytestring {
    if sizes == [] then [] else Ber(sizes[0]) + BerAll(sizes[1..])
  }

  function DecodeAll(s: Bytestring, count: nat): Option<(seq<nat>, Bytestring)>
    decreases count
  {
    if count == 0 then Some(([], s))
    else
      match Decode(s, 0)
      case None => None
      case Some((n, rest)) =>
        match DecodeAll(rest, count - 1)
        case None => None
        case Some((ns, end)) => Some(([n] + ns, end))
  }

  lemma {:induction false} DecodeBerAll(sizes: seq<uint32>, s: Bytestring)
    ensures DecodeAll(BerAll(sizes) + s, |sizes|) ==
      Some((seq(|sizes|, i requires 0 <= i < |sizes| => sizes[i] as nat), s))
    decreases |sizes|
  {
    if sizes == [] {
      assert BerAll(sizes) + s == s;
    } else {
      var rest := BerAll(sizes[1..]) + s;
      assert BerAll(sizes) + s == Ber(sizes[0]) + rest;
      DecodeBer(sizes[0], rest);
      DecodeBerAll(sizes[1..], s);
      var tail := seq(|sizes[1..]|, i requires 0 <= i < |sizes[1..]| => sizes[1..][i] as nat);
      assert [sizes[0] as nat] + tail == seq(|sizes|, i requires 0 <= i < |sizes| => sizes[i] as nat);
    }
  }
}

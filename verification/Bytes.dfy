/** Octets, machine words and the few byte-sequence operations shared by all modules. */
module Bytes {

  type byte = x: int | 0 <= x < 256

  type uint32 = x: int | 0 <= x < 0x1_0000_0000

  /** `size_t` on the 64-bit build. */
  type size = x: int | 0 <= x < 0x1_0000_0000_0000_0000

  type Bytestring = seq<byte>

  datatype Option<+T> = None | Some(value: T)

  const HT: byte := 9
  const LF: byte := 10
  const CR: byte := 13
  const SP: byte := 32
  const COLON: byte := 58
  const DEL: byte := 127

  /** The value of an octet read through a signed `char`. */
  function Signed(b: byte): int {
    if b < 128 then b else b - 256
  }

  /** All pieces of a fragmented byte stream, joined. */
  function Join(pieces: seq<Bytestring>): Bytestring {
    if pieces == [] then [] else pieces[0] + Join(pieces[1..])
  }

  /** `memmove(buf + dst, buf + src, n)`, byte by byte, for the direction the program uses (`dst <= src`). */
  method MoveDown(buf: array<byte>, dst: nat, src: nat, n: nat)
    requires dst <= src && src + n <= buf.Length
    modifies buf
    ensures buf[..] == old(buf[..dst]) + old(buf[src..src + n]) + old(buf[dst + n..])
  {
    ghost var was := buf[..];
    for i := 0 to n
      invariant forall k :: 0 <= k < dst ==> buf[k] == was[k]
      invariant forall k :: dst <= k < dst + i ==> buf[k] == was[src..][k - dst]
      invariant forall k :: dst + i <= k < buf.Length ==> buf[k] == was[k]
    {
      buf[dst + i] := buf[src + i];
    }
    assert was[src..src + n] == was[src..][..n];
  }

  /** The bytes of a little-endian `uint32_t`. */
  function LE32(x: uint32): (s: Bytestring)
    ensures |s| == 4
  {
    [x % 0x100, x / 0x100 % 0x100, x / 0x1_0000 % 0x100, x / 0x100_0000]
  }

  function UnLE32(s: Bytestring): uint32
    requires |s| == 4
  {
    var a: int, b: int, c: int, d: int := s[0], s[1], s[2], s[3];
    a + 0x100 * b + 0x1_0000 * c + 0x100_0000 * d
  }

  lemma UnLE32LE32(x: uint32)
    ensures UnLE32(LE32(x)) == x
  {
    var a, b, c := x / 0x100, x / 0x1_0000, x / 0x100_0000;
    assert b == a / 0x100 && c == b / 0x100;
  }

  /** The least significant byte comes first. */
  lemma LittleEndian(x: uint32)
    ensures var s := LE32(x);
      x == s[0] as int + 0x100 * s[1] as int + 0x1_0000 * s[2] as int + 0x100_0000 * s[3] as int
  {
    UnLE32LE32(x);
  }

  /** What `%s` and `strlen` see of a string: the bytes before the first NUL. */
  function CString(s: Bytestring): (r: Bytestring)
    ensures |r| <= |s| && r == s[..|r|] && 0 !in r
    ensures |r| < |s| ==> s[|r|] == 0
  {
    if s == [] || s[0] == 0 then [] else [s[0]] + CString(s[1..])
  }

  /** Memory that holds a string, its NUL and anything behind it is that string. */
  lemma {:induction false} Terminated(w: Bytestring, more: Bytestring)
    requires 0 !in w
    ensures CString(w + [0] + more) == w
    decreases |w|
  {
    if w != [] {
      assert (w + [0] + more)[1..] == w[1..] + [0] + more;
      Terminated(w[1..], more);
    }
  }

  /** `w` stands in `s` at `i`. */
  ghost predicate At(s: Bytestring, i: nat, w: Bytestring) {
    i + |w| <= |s| && forall k {:trigger w[k]} :: 0 <= k < |w| ==> s[i + k] == w[k]
  }

  lemma AtSplit(s: Bytestring, i: nat, a: Bytestring, b: Bytestring)
    requires At(s, i, a + b)
    ensures At(s, i, a) && At(s, i + |a|, b)
  {
    forall k | 0 <= k < |a| ensures s[i + k] == a[k] { assert a[k] == (a + b)[k]; }
    forall k | 0 <= k < |b| ensures s[i + |a| + k] == b[k] { assert b[k] == (a + b)[|a| + k]; }
  }

  lemma AtByte(s: Bytestring, i: nat, w: Bytestring, k: nat)
    requires At(s, i, w) && k < |w|
    ensures s[i + k] == w[k]
  {
  }

  lemma AtSlice(s: Bytestring, i: nat, w: Bytestring)
    requires At(s, i, w)
    ensures s[i..i + |w|] == w
  {
  }

  lemma Reassociate<T>(a: seq<T>, b: seq<T>, c: seq<T>)
    ensures a + b + c == a + (b + c)
  {
  }

  /** The order of `std::string`: bytes compared unsigned. */
  predicate Less(a: Bytestring, b: Bytestring) {
    if a == [] then b != []
    else if b == [] then false
    else a[0] < b[0] || (a[0] == b[0] && Less(a[1..], b[1..]))
  }

  /** At the first place where they differ the smaller byte decides; a proper prefix is smaller. */
  lemma {:induction false} LessExactly(a: Bytestring, b: Bytestring)
    ensures Less(a, b) <==> exists k: nat :: Differ(a, b, k)
    decreases |a|
  {
    if a != [] && b != [] && a[0] == b[0] {
      LessExactly(a[1..], b[1..]);
      if k: nat :| Differ(a[1..], b[1..], k) {
        assert a[..k + 1] == [a[0]] + a[1..][..k] && b[..k + 1] == [b[0]] + b[1..][..k];
        assert Differ(a, b, k + 1);
      }
      if k: nat :| Differ(a, b, k) {
        assert k > 0 && a[1..][..k - 1] == a[..k][1..] && b[1..][..k - 1] == b[..k][1..];
        assert Differ(a[1..], b[1..], k - 1);
      }
    } else if Less(a, b) {
      assert Differ(a, b, 0);
    }
  }

  /** `a` and `b` agree up to `k`, and there `a` ends or has the smaller byte. */
  predicate Differ(a: Bytestring, b: Bytestring, k: nat) {
    k <= |a| && k < |b| && a[..k] == b[..k] && (k == |a| || a[k] < b[k])
  }

  lemma {:induction false} LessTransitive(a: Bytestring, b: Bytestring, c: Bytestring)
    requires Less(a, b) && Less(b, c)
    ensures Less(a, c)
    decreases |a|
  {
    if a != [] && a[0] == b[0] == c[0] {
      LessTransitive(a[1..], b[1..], c[1..]);
    }
  }

  lemma {:induction false} LessTotal(a: Bytestring, b: Bytestring)
    ensures Less(a, b) || a == b || Less(b, a)
    ensures !(Less(a, b) && Less(b, a)) && !Less(a, a)
    decreases |a| + |b|
  {
    if a != [] && b != [] {
      LessTotal(a[1..], b[1..]);
      assert a == [a[0]] + a[1..] && b == [b[0]] + b[1..];
    }
    LessIrreflexive(a);
  }

  lemma {:induction false} LessIrreflexive(a: Bytestring)
    ensures !Less(a, a)
    decreases |a|
  {
    if a != [] {
      LessIrreflexive(a[1..]);
    }
  }
}

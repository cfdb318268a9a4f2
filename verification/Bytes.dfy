// Octet strings, Python slicing, big- and little-endian integers, and XOR.

module Bytes {
  type byte = b: int | 0 <= b < 256
  type bytes = seq<byte>

  datatype Option<+T> = None | Some(value: T) {
    function GetOr(default: T): T { if None? then default else value }
  }

  // ---- Python slices: bounds past either end are clamped ----

  // s[:n]
  function Take(s: bytes, n: nat): bytes {
    if n <= |s| then s[..n] else s
  }

  // s[n:]
  function Drop(s: bytes, n: nat): bytes {
    if n <= |s| then s[n..] else []
  }

  // s[:-n]. With n == 0 Python reads s[:0], so the result is empty, not s.
  function ButLast(s: bytes, n: nat): bytes {
    if 0 < n <= |s| then s[..|s| - n] else []
  }

  // s[-n:]. With n == 0 Python reads s[0:], so the result is all of s.
  function Last(s: bytes, n: nat): bytes {
    if 0 < n <= |s| then s[|s| - n..] else s
  }

  // ---- fixed-width integers ----

  // The number of values that `width` octets can carry.
  function Pow256(width: nat): (r: nat)
    ensures r >= 1
  {
    if width == 0 then 1 else 256 * Pow256(width - 1)
  }

  lemma Pow256Values()
    ensures Pow256(1) == 0x100 && Pow256(2) == 0x1_0000 && Pow256(3) == 0x100_0000
    ensures Pow256(4) == 0x1_0000_0000 && Pow256(8) == 0x1_0000_0000_0000_0000
  {
    assert Pow256(4) == 256 * Pow256(3) == 65536 * Pow256(2);
    assert Pow256(8) == 256 * Pow256(7) == 65536 * Pow256(6);
    assert Pow256(6) == 256 * Pow256(5) == 65536 * Pow256(4);
  }

  // Big-endian, most significant octet first; the low `width` octets of n.
  function PackBE(n: nat, width: nat): (r: bytes)
    ensures |r| == width
  {
    if width == 0 then [] else PackBE(n / 256, width - 1) + [n % 256]
  }

  function UnpackBE(b: bytes): nat {
    if b == [] then 0 else 256 * UnpackBE(b[..|b| - 1]) + b[|b| - 1]
  }

  lemma {:induction false} UnpackPackBE(n: nat, width: nat)
    requires n < Pow256(width)
    ensures UnpackBE(PackBE(n, width)) == n
  {
    if width > 0 {
      UnpackPackBE(n / 256, width - 1);
      assert PackBE(n, width)[..width - 1] == PackBE(n / 256, width - 1);
    }
  }

  lemma {:induction false} PackUnpackBE(b: bytes)
    ensures UnpackBE(b) < Pow256(|b|) && PackBE(UnpackBE(b), |b|) == b
  {
    if b != [] {
      PackUnpackBE(b[..|b| - 1]);
    }
  }

  // Little-endian, as struct's "<I" lays a number out.
  function PackLE(n: nat, width: nat): (r: bytes)
    ensures |r| == width
  {
    if width == 0 then [] else [n % 256] + PackLE(n / 256, width - 1)
  }

  function UnpackLE(b: bytes): nat {
    if b == [] then 0 else b[0] + 256 * UnpackLE(b[1..])
  }

  lemma {:induction false} UnpackPackLE(n: nat, width: nat)
    requires n < Pow256(width)
    ensures UnpackLE(PackLE(n, width)) == n
  {
    if width > 0 {
      UnpackPackLE(n / 256, width - 1);
      assert PackLE(n, width)[1..] == PackLE(n / 256, width - 1);
    }
  }

  // Four octets either way round, written out.
  lemma FourOctets(n: nat)
    requires n < 0x1_0000_0000
    ensures PackBE(n, 4) == [n / 0x100_0000, n / 0x1_0000 % 256, n / 256 % 256, n % 256]
    ensures PackLE(n, 4) == [n % 256, n / 256 % 256, n / 0x1_0000 % 256, n / 0x100_0000]
  {
    assert n / 256 / 256 == n / 0x1_0000 && n / 256 / 256 / 256 == n / 0x100_0000;
    assert PackBE(n / 0x100_0000, 1) == [n / 0x100_0000] == PackLE(n / 0x100_0000, 1);
    assert PackBE(n / 0x1_0000, 2) == [n / 0x100_0000, n / 0x1_0000 % 256];
    assert PackLE(n / 0x1_0000, 2) == [n / 0x1_0000 % 256, n / 0x100_0000];
    assert PackBE(n / 256, 3) == [n / 0x100_0000, n / 0x1_0000 % 256, n / 256 % 256];
    assert PackLE(n / 256, 3) == [n / 256 % 256, n / 0x1_0000 % 256, n / 0x100_0000];
  }

  // ---- XOR ----

  // Exclusive or of the low `bits` bits, one bit at a time.
  function XorBits(a: nat, b: nat, bits: nat): (r: nat)
    ensures bits == 8 ==> r < 256
  {
    XorBitsBound(a, b, bits);
    XorBitsRaw(a, b, bits)
  }

  function XorBitsRaw(a: nat, b: nat, bits: nat): nat {
    if bits == 0 then 0
    else (if a % 2 == b % 2 then 0 else 1) + 2 * XorBitsRaw(a / 2, b / 2, bits - 1)
  }

  function Pow2(bits: nat): (r: nat)
    ensures r >= 1
  {
    if bits == 0 then 1 else 2 * Pow2(bits - 1)
  }

  lemma {:induction false} XorBitsBound(a: nat, b: nat, bits: nat)
    ensures XorBitsRaw(a, b, bits) < Pow2(bits)
    ensures bits == 8 ==> Pow2(bits) == 256
  {
    if bits > 0 {
      XorBitsBound(a / 2, b / 2, bits - 1);
    }
    assert Pow2(4) == 16;
    assert Pow2(8) == 16 * Pow2(4) by {
      assert Pow2(8) == 4 * Pow2(6);
      assert Pow2(6) == 4 * Pow2(4);
    }
  }

  function Xor(a: byte, b: byte): byte {
    XorBits(a, b, 8)
  }

  // The i-th bit of the one is set exactly where the i-th bits of the others
  // differ.
  lemma {:induction false} XorIsBitwise(a: nat, b: nat, bits: nat, i: nat)
    requires i < bits
    ensures Bit(XorBitsRaw(a, b, bits), i) <==> Bit(a, i) != Bit(b, i)
  {
    if i > 0 {
      XorIsBitwise(a / 2, b / 2, bits - 1, i - 1);
    }
  }

  predicate Bit(a: nat, i: nat) {
    if i == 0 then a % 2 == 1 else Bit(a / 2, i - 1)
  }

  lemma XorOctets(a: byte, b: byte, i: nat)
    requires i < 8
    ensures Bit(Xor(a, b), i) <==> Bit(a, i) != Bit(b, i)
  {
    XorIsBitwise(a, b, 8, i);
  }

  lemma {:induction false} XorBitsCancels(a: nat, b: nat, bits: nat)
    requires a < Pow2(bits)
    ensures XorBitsRaw(XorBitsRaw(a, b, bits), b, bits) == a
  {
    if bits > 0 {
      XorBitsCancels(a / 2, b / 2, bits - 1);
    }
  }

  lemma XorCancels(a: byte, b: byte)
    ensures Xor(Xor(a, b), b) == a
  {
    XorBitsBound(a, b, 8);
    XorBitsCancels(a, b, 8);
  }

  // Octet-wise XOR of two strings of one length.
  function XorBytes(a: bytes, b: bytes): (r: bytes)
    requires |a| == |b|
    ensures |r| == |a|
  {
    seq(|a|, i requires 0 <= i < |a| => Xor(a[i], b[i]))
  }

  lemma XorBytesCancels(a: bytes, b: bytes)
    requires |a| == |b|
    ensures XorBytes(XorBytes(a, b), b) == a
  {
    forall i | 0 <= i < |a| ensures XorBytes(XorBytes(a, b), b)[i] == a[i] {
      XorCancels(a[i], b[i]);
    }
  }

  // ---- concatenation of a list of strings ----

  function Concat(parts: seq<bytes>): bytes {
    if parts == [] then [] else parts[0] + Concat(parts[1..])
  }

  lemma {:induction false} ConcatAppend(parts: seq<bytes>, more: seq<bytes>)
    ensures Concat(parts + more) == Concat(parts) + Concat(more)
  {
    if parts == [] {
      assert parts + more == more;
    } else {
      ConcatAppend(parts[1..], more);
      assert (parts + more)[0] == parts[0] && (parts + more)[1..] == parts[1..] + more;
      assert parts[0] + (Concat(parts[1..]) + Concat(more)) == parts[0] + Concat(parts[1..]) + Concat(more);
    }
  }
}

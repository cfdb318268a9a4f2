// What DIGEST-MD5 traffic looks like from outside: the units that are encrypted,
// the one cipher they all go through, and a server that checks what this client
// only strips.

module DigestWire {
  import opened Bytes
  import opened DigestMd5
  import StreamCipher

  // ---- keys and ciphers ----

  // Cipher names are matched without regard to case; every other name means RC4.
  lemma NamesOfCiphers(name: string)
    ensures KindOf(name) == Des <==>
              |name| == 3 && name[0] in "dD" && name[1] in "eE" && name[2] in "sS"
    ensures KindOf(name) == TripleDes <==>
              |name| == 4 && name[0] == '3' && name[1] in "dD" && name[2] in "eE" && name[3] in "sS"
  {
    var low := Lower(name);
    assert low == "des" <==> |low| == 3 && low[0] == 'd' && low[1] == 'e' && low[2] == 's';
    assert low == "3des" <==> |low| == 4 && low[0] == '3' && low[1] == 'd' && low[2] == 'e' && low[3] == 's';
  }

  // The DES key is the spread of seven octets, that of triple DES two such keys
  // and the first again; CBC starts from the last eight octets.
  lemma CipherKeys(sealKey: bytes)
    requires |sealKey| == 16
    ensures CipherKey(Rc4, sealKey) == sealKey && FirstChain(Rc4, sealKey) == Position(0)
    ensures CipherKey(Des, sealKey) == DesKey(sealKey[..7])
    ensures CipherKey(TripleDes, sealKey) == DesKey(sealKey[..7]) + DesKey(sealKey[7..14]) + DesKey(sealKey[..7])
    ensures FirstChain(Des, sealKey) == FirstChain(TripleDes, sealKey) == Vector(sealKey[8..])
  {
    hide DesKey;
  }

  // The spread loses none of the 56 bits: dropping the parity bits gives them back.
  lemma DesKeySpreads(seven: bytes)
    requires |seven| == 7
    ensures var k: Octets7 := seq(7, i requires 0 <= i < 7 => seven[i] as bv8);
            && (forall i :: 0 <= i < 8 ==> DesKey(seven)[i] == DesExpandKey(k)[i] as int)
            && DesContractKey(DesExpandKey(k)) == k
  {
    DesKeyBitsSurvive(seq(7, i requires 0 <= i < 7 => seven[i] as bv8));
    hide DesExpandKey, DesContractKey;
  }

  // CBC, block by block: each is masked with the ciphertext block before it.
  lemma {:induction false} CbcBlock(prim: Primitives, kind: CipherKind, key: bytes, last: Block, data: bytes, j: nat)
    requires |data| % 8 == 0 && 8 * j < |data|
    ensures var out := CbcEncrypt(prim, kind, key, last, data);
            BlockOf(out, j)
            == prim.encrypt(kind, key, XorBytes(BlockOf(data, j), if j == 0 then last else BlockOf(out, j - 1)))
    decreases j
  {
    var first: Block, rest := data[..8], data[8..];
    var c := prim.encrypt(kind, key, XorBytes(first, last));
    var more := CbcEncrypt(prim, kind, key, c, rest);
    hide CbcEncrypt, XorBytes, BlockOf;
    assert data == first + rest;
    CbcStep(prim, kind, key, last, first, rest);
    FirstBlock(c, more);
    FirstBlock(first, rest);
    if j > 0 {
      CbcBlock(prim, kind, key, c, rest, j - 1);
      NextBlock(c, more, j);
      NextBlock(first, rest, j);
      if j > 1 {
        NextBlock(c, more, j - 1);
      }
    }
  }

  lemma FirstBlock(a: Block, b: bytes)
    ensures BlockOf(a + b, 0) == a
  {
  }

  function BlockOf(data: bytes, j: nat): Block
    requires 8 * j + 8 <= |data|
  {
    data[8 * j..8 * j + 8]
  }

  lemma NextBlock(a: Block, b: bytes, j: nat)
    requires 0 < j && 8 * j <= |b|
    ensures BlockOf(a + b, j) == BlockOf(b, j - 1)
  {
  }

  // ---- one cipher for life ----

  // What gets encrypted for the n-th message: text, pad to whole blocks, and a
  // keyed hash over number and text.
  function Unit(prim: Primitives, kind: CipherKind, signKey: bytes, n: nat, text: bytes): bytes {
    var pad := 8 - (|text| + 10) % 8;
    text + (if kind == Rc4 then [] else seq(pad, _ => pad)) + Mac(prim, signKey, PackBE(n, 4) + text)
  }

  lemma MacAt(prim: Primitives, key: bytes, message: bytes, i: nat)
    requires i < 10
    ensures Mac(prim, key, message)[i] == prim.hmac(key, message, i)
  {
    assert Mac(prim, key, message)[i] == HmacOctet(prim, key, message, i);
  }

  // One message: the unit goes through the cipher where the last one left it,
  // and message type and number follow in the clear. A server that deciphers it
  // finds the unit, keyed hash included.
  lemma MessageCarriesItsUnit(prim: Primitives, v: View, text: bytes)
    requires ChainFits(v.kind, v.chain) && |v.sealKey| == 16 && v.seqNum < 0x1_0000_0000
    ensures var unit, key := Unit(prim, v.kind, v.signKey, v.seqNum, text), CipherKey(v.kind, v.sealKey);
            var (out, chain) := Encipher(prim, v.kind, key, v.chain, unit);
            && out.Some? && |out.value| == |unit| && (v.kind != Rc4 ==> |unit| % 8 == 0)
            && SealMessage(prim, v, text)
               == (Some(out.value + [0, 1] + PackBE(v.seqNum, 4)), v.(chain := chain, seqNum := v.seqNum + 1))
            && ChainFits(v.kind, chain)
            && (Invertible(prim) ==> Decipher(prim, v.kind, key, v.chain, out.value) == (Some(unit), chain))
  {
    hide CipherKey, Mac, Plain, Unit, PackBE, CbcEncrypt, Decipher;
    UnitIsPlain(prim, v, text);
    var unit, key := Unit(prim, v.kind, v.signKey, v.seqNum, text), CipherKey(v.kind, v.sealKey);
    if Invertible(prim) {
      DecipherUndoesEncipher(prim, v.kind, key, v.chain, unit);
    }
  }

  lemma UnitIsPlain(prim: Primitives, v: View, text: bytes)
    ensures var unit := Unit(prim, v.kind, v.signKey, v.seqNum, text);
            && unit == Plain(v.kind, text, Mac(prim, v.signKey, PackBE(v.seqNum, 4) + text))
            && (v.kind != Rc4 ==> |unit| % 8 == 0)
  {
    hide Mac, PackBE;
    PaddingIsReversible(v.kind, text, Mac(prim, v.signKey, PackBE(v.seqNum, 4) + text));
  }

  // Enciphering one thing after another is enciphering them joined.
  lemma EncipherJoins(prim: Primitives, kind: CipherKind, key: bytes, chain: Chain, a: bytes, b: bytes)
    requires ChainFits(kind, chain) && (kind != Rc4 ==> |a| % 8 == 0 && |b| % 8 == 0)
    ensures var (x, between) := Encipher(prim, kind, key, chain, a);
            && ChainFits(kind, between)
            && var (y, after) := Encipher(prim, kind, key, between, b);
            && x.Some? && y.Some?
            && Encipher(prim, kind, key, chain, a + b) == (Some(x.value + y.value), after)
  {
    hide StreamCipher.Rc4, CbcEncrypt, LastBlock;
    match chain
    case Position(pos) =>
      Rc4Joins(prim.keystream, key, pos, a, b);
    case Vector(last) =>
      CbcJoins(prim, kind, key, last, a, b);
      var x := CbcEncrypt(prim, kind, key, last, a);
      LastOfBoth(last, x, CbcEncrypt(prim, kind, key, LastBlock(last, x), b));
      Blocks(a, b);
  }

  lemma Rc4Joins(keystream: StreamCipher.Keystream, key: bytes, pos: nat, a: bytes, b: bytes)
    ensures StreamCipher.Rc4(keystream, key, pos, a + b)
         == StreamCipher.Rc4(keystream, key, pos, a) + StreamCipher.Rc4(keystream, key, pos + |a|, b)
  {
  }

  lemma CbcStep(prim: Primitives, kind: CipherKind, key: bytes, last: Block, first: Block, rest: bytes)
    requires |rest| % 8 == 0
    ensures var c := prim.encrypt(kind, key, XorBytes(first, last));
            CbcEncrypt(prim, kind, key, last, first + rest) == c + CbcEncrypt(prim, kind, key, c, rest)
  {
    hide XorBytes;
    assert (first + rest)[..8] == first && (first + rest)[8..] == rest;
  }

  lemma {:induction false} CbcJoins(prim: Primitives, kind: CipherKind, key: bytes, last: Block, a: bytes, b: bytes)
    requires |a| % 8 == 0 && |b| % 8 == 0
    ensures var x := CbcEncrypt(prim, kind, key, last, a);
            CbcEncrypt(prim, kind, key, last, a + b) == x + CbcEncrypt(prim, kind, key, LastBlock(last, x), b)
    decreases |a|, 0
  {
    if a == [] {
      assert a + b == b;
    } else {
      CbcJoinsStep(prim, kind, key, last, a[..8], a[8..], b);
      hide *;
      assert a == a[..8] + a[8..];
    }
  }

  lemma {:induction false} CbcJoinsStep(prim: Primitives, kind: CipherKind, key: bytes, last: Block,
                                        first: Block, more: bytes, b: bytes)
    requires |more| % 8 == 0 && |b| % 8 == 0
    ensures var x := CbcEncrypt(prim, kind, key, last, first + more);
            CbcEncrypt(prim, kind, key, last, first + more + b)
            == x + CbcEncrypt(prim, kind, key, LastBlock(last, x), b)
    decreases |more|, 1
  {
    hide CbcEncrypt, XorBytes, LastBlock;
    var c := prim.encrypt(kind, key, XorBytes(first, last));
    assert first + more + b == first + (more + b);
    CbcStep(prim, kind, key, last, first, more);
    CbcStep(prim, kind, key, last, first, more + b);
    CbcJoins(prim, kind, key, c, more, b);
    var x := CbcEncrypt(prim, kind, key, c, more);
    LastOfMore(last, c, x);
    assert c + (x + CbcEncrypt(prim, kind, key, LastBlock(c, x), b))
        == c + x + CbcEncrypt(prim, kind, key, LastBlock(c, x), b);
  }

  lemma LastOfMore(last: Block, c: Block, rest: bytes)
    requires |rest| % 8 == 0
    ensures LastBlock(last, c + rest) == LastBlock(c, rest)
  {
  }

  lemma LastOfBoth(last: Block, x: bytes, y: bytes)
    requires |x| % 8 == 0 && |y| % 8 == 0
    ensures LastBlock(last, x + y) == LastBlock(LastBlock(last, x), y)
  {
    if y == [] {
      assert x + y == x;
    } else {
      assert |y| >= 8 && (x + y)[|x + y| - 8..] == y[|y| - 8..];
    }
  }

  // The wires of consecutive wraps, up to one that raises.
  function WrapAll(prim: Primitives, s: State, texts: seq<bytes>): seq<bytes>
    decreases |texts|
  {
    if texts == [] then []
    else
      var (wire, s') := Wrap(prim, s, texts[0]);
      if wire == None then [] else [wire.value] + WrapAll(prim, s', texts[1..])
  }

  function Units(prim: Primitives, kind: CipherKind, signKey: bytes, n: nat, texts: seq<bytes>): bytes
    decreases |texts|
  {
    if texts == [] then [] else Unit(prim, kind, signKey, n, texts[0]) + Units(prim, kind, signKey, n + 1, texts[1..])
  }

  function Ciphertexts(wires: seq<bytes>): bytes {
    if wires == [] then [] else ButLast(wires[0], 6) + Ciphertexts(wires[1..])
  }

  // Over any run: the ciphertexts, joined, are the units, joined, through one
  // cipher.
  lemma {:induction false} OneCipherForLife(prim: Primitives, s: State, texts: seq<bytes>)
    requires s.Valid() && s.sendSeq + |texts| <= 0x1_0000_0000
    ensures var units := Units(prim, s.kind, s.keys.clientSign, s.sendSeq, texts);
            && (s.kind != Rc4 ==> |units| % 8 == 0)
            && Encipher(prim, s.kind, CipherKey(s.kind, s.keys.clientSeal), s.sending, units).0
               == Some(Ciphertexts(WrapAll(prim, s, texts)))
    decreases |texts|
  {
    if texts != [] {
      assert texts == [texts[0]] + texts[1..];
      var s' := OneMore(prim, s, texts[0], texts[1..]);
      hide CipherKey, Encipher, PackBE, Unit, WrapAll;
      OneCipherForLife(prim, s', texts[1..]);
      var key := CipherKey(s.kind, s.keys.clientSeal);
      var unit := Unit(prim, s.kind, s.keys.clientSign, s.sendSeq, texts[0]);
      var more := Units(prim, s.kind, s.keys.clientSign, s.sendSeq + 1, texts[1..]);
      EncipherJoins(prim, s.kind, key, s.sending, unit, more);
      Blocks(unit, more);
      assert Units(prim, s.kind, s.keys.clientSign, s.sendSeq, texts) == unit + more;
    }
  }

  lemma Blocks(a: bytes, b: bytes)
    ensures |a| % 8 == 0 && |b| % 8 == 0 ==> |a + b| % 8 == 0
  {
  }

  // And every wire ends in message type and its own number.
  lemma {:induction false} WiresShowTheirNumbers(prim: Primitives, s: State, texts: seq<bytes>, k: nat)
    requires s.Valid() && s.sendSeq + |texts| <= 0x1_0000_0000 && k < |texts|
    ensures |WrapAll(prim, s, texts)| > k
    ensures Last(WrapAll(prim, s, texts)[k], 6) == [0, 1] + PackBE(s.sendSeq + k, 4)
    decreases |texts|
  {
    hide *;
    assert texts == [texts[0]] + texts[1..];
    var s' := OneMore(prim, s, texts[0], texts[1..]);
    if k > 0 {
      WiresShowTheirNumbers(prim, s', texts[1..], k - 1);
    }
  }

  // The first message of a run, and what is left of it.
  lemma OneMore(prim: Primitives, s: State, text: bytes, texts: seq<bytes>) returns (s': State)
    requires s.Valid() && s.sendSeq < 0x1_0000_0000
    ensures s'.Valid() && s'.kind == s.kind && s'.keys == s.keys && s'.sendSeq == s.sendSeq + 1
    ensures var unit, wires := Unit(prim, s.kind, s.keys.clientSign, s.sendSeq, text), WrapAll(prim, s, [text] + texts);
            && wires != [] && wires[1..] == WrapAll(prim, s', texts)
            && (s.kind != Rc4 ==> |unit| % 8 == 0)
            && Encipher(prim, s.kind, CipherKey(s.kind, s.keys.clientSeal), s.sending, unit)
               == (Some(ButLast(wires[0], 6)), s'.sending)
            && Last(wires[0], 6) == [0, 1] + PackBE(s.sendSeq, 4)
  {
    var v := s.Outbound();
    MessageCarriesItsUnit(prim, v, text);
    hide SealMessage, Unit, CipherKey, Encipher, PackBE;
    var (wire, after) := Wrap(prim, s, text);
    var unit := Unit(prim, s.kind, v.signKey, v.seqNum, text);
    Trailer(Encipher(prim, s.kind, CipherKey(v.kind, v.sealKey), s.sending, unit).0.value, v.seqNum, wire.value);
    s' := after;
    assert ([text] + texts)[1..] == texts;
  }

  lemma Trailer(out: bytes, n: nat, wire: bytes)
    requires wire == out + [0, 1] + PackBE(n, 4)
    ensures ButLast(wire, 6) == out && Last(wire, 6) == [0, 1] + PackBE(n, 4)
  {
    hide PackBE;
    assert wire == out + ([0, 1] + PackBE(n, 4));
  }

  // ---- a server that checks ----

  // It asks for message type, number and keyed hash before it believes a text.
  function CheckedUnwrap(prim: Primitives, kind: CipherKind, sealKey: bytes, signKey: bytes,
                         chain: Chain, n: nat, wire: bytes): Option<(bytes, Chain)>
    requires ChainFits(kind, chain) && |sealKey| == 16
  {
    var (unit, after) := Decipher(prim, kind, CipherKey(kind, sealKey), chain, ButLast(wire, 6));
    if Last(wire, 6) != [0, 1] + PackBE(n, 4) || unit == None then None
    else
      var text := Unpadded(kind, unit.value);
      if Last(unit.value, 10) == Mac(prim, signKey, PackBE(n, 4) + text) then Some((text, after)) else None
  }

  function CheckAll(prim: Primitives, kind: CipherKind, sealKey: bytes, signKey: bytes,
                    chain: Chain, n: nat, wires: seq<bytes>): Option<seq<bytes>>
    requires ChainFits(kind, chain) && |sealKey| == 16
    decreases |wires|
  {
    if wires == [] then Some([])
    else
      match CheckedUnwrap(prim, kind, sealKey, signKey, chain, n, wires[0])
      case None => None
      case Some((text, after)) =>
        if !ChainFits(kind, after) then None
        else match CheckAll(prim, kind, sealKey, signKey, after, n + 1, wires[1..])
          case None => None
          case Some(more) => Some([text] + more)
  }

  // It believes every message of every run, under every cipher.
  lemma {:induction false} CheckingServerBelieves(prim: Primitives, s: State, texts: seq<bytes>)
    requires Invertible(prim) && s.Valid() && s.sendSeq + |texts| <= 0x1_0000_0000
    ensures CheckAll(prim, s.kind, s.keys.clientSeal, s.keys.clientSign, s.sending, s.sendSeq, WrapAll(prim, s, texts))
         == Some(texts)
    decreases |texts|
  {
    if texts != [] {
      OneIsBelieved(prim, s, texts[0]);
      var (wire, s') := Wrap(prim, s, texts[0]);
      hide Wrap, CheckedUnwrap, CipherKey, CheckAll;
      CheckingServerBelieves(prim, s', texts[1..]);
      assert WrapAll(prim, s, texts) == [wire.value] + WrapAll(prim, s', texts[1..]);
      hide WrapAll;
      CheckOneMore(prim, s, s', wire.value, WrapAll(prim, s', texts[1..]), texts[0], texts[1..]);
      assert [texts[0]] + texts[1..] == texts;
    }
  }

  lemma CheckOneMore(prim: Primitives, s: State, s': State, wire: bytes, wires: seq<bytes>,
                     text: bytes, texts: seq<bytes>)
    requires s.Valid() && s'.Valid() && s'.kind == s.kind && s'.keys == s.keys && s'.sendSeq == s.sendSeq + 1
    requires CheckedUnwrap(prim, s.kind, s.keys.clientSeal, s.keys.clientSign, s.sending, s.sendSeq, wire)
             == Some((text, s'.sending))
    requires CheckAll(prim, s.kind, s.keys.clientSeal, s.keys.clientSign, s'.sending, s'.sendSeq, wires) == Some(texts)
    ensures CheckAll(prim, s.kind, s.keys.clientSeal, s.keys.clientSign, s.sending, s.sendSeq, [wire] + wires)
         == Some([text] + texts)
  {
    hide CheckedUnwrap, CipherKey;
    assert ([wire] + wires)[1..] == wires;
  }

  lemma OneIsBelieved(prim: Primitives, s: State, text: bytes)
    requires Invertible(prim) && s.Valid() && s.sendSeq < 0x1_0000_0000
    ensures var (wire, s') := Wrap(prim, s, text);
            && wire.Some? && s'.Valid() && s'.kind == s.kind && s'.keys == s.keys && s'.sendSeq == s.sendSeq + 1
            && CheckedUnwrap(prim, s.kind, s.keys.clientSeal, s.keys.clientSign, s.sending, s.sendSeq, wire.value)
               == Some((text, s'.sending))
  {
    var v := s.Outbound();
    var mac := Mac(prim, v.signKey, PackBE(v.seqNum, 4) + text);
    var unit := Unit(prim, v.kind, v.signKey, v.seqNum, text);
    hide SealMessage, Unit, CipherKey, Encipher, Decipher, PackBE, Unpadded, Mac;
    MessageCarriesItsUnit(prim, v, text);
    UnitIsPlain(prim, v, text);
    PaddingIsReversible(v.kind, text, mac);
    assert Last(unit, 10) == mac;
    hide Plain;
    var out := Encipher(prim, v.kind, CipherKey(v.kind, v.sealKey), v.chain, unit).0.value;
    Trailer(out, v.seqNum, Wrap(prim, s, text).0.value);
  }

  // ---- auth-int ----

  function IntWrapAll(prim: Primitives, s: IntState, texts: seq<bytes>): seq<bytes>
    decreases |texts|
  {
    if texts == [] then []
    else
      var (wire, s') := IntWrap(prim, s, texts[0]);
      if wire == None then [] else [wire.value] + IntWrapAll(prim, s', texts[1..])
  }

  // The k-th message is its text, the keyed hash over number and text, message
  // type and number.
  lemma {:induction false} IntTraffic(prim: Primitives, s: IntState, texts: seq<bytes>, k: nat)
    requires k < |texts| && s.sendSeq + k < 0x1_0000_0000
    ensures k < |IntWrapAll(prim, s, texts)|
    ensures IntWrapAll(prim, s, texts)[k]
         == texts[k] + Mac(prim, s.clientSign, PackBE(s.sendSeq + k, 4) + texts[k]) + [0, 1] + PackBE(s.sendSeq + k, 4)
    decreases |texts|
  {
    if k > 0 {
      IntTraffic(prim, IntWrap(prim, s, texts[0]).1, texts[1..], k - 1);
    }
  }

  // ---- units of another making ----

  // Whatever precedes it, the last octet before the hash says how much is cut
  // off; zero, or more than there is, leaves nothing, as Python slices go.
  lemma PadOctetDecides(kind: CipherKind, text: bytes, pad: byte, mac: bytes)
    requires kind != Rc4 && |mac| == 10
    ensures Unpadded(kind, text + [pad] + mac)
         == if 0 < pad <= |text| + 1 then text[..|text| + 1 - pad] else []
  {
    assert ButLast(text + [pad] + mac, 10) == text + [pad];
  }

  // A frame with no room for a hash reads as an empty text, or raises where the
  // block cipher does.
  lemma ShortFramesAreEmpty(prim: Primitives, s: State, wrapped: bytes)
    requires s.Valid() && |wrapped| <= 16
    ensures Unwrap(prim, s, wrapped).0 ==
              if s.kind != Rc4 && |wrapped| > 6 && (|wrapped| - 6) % 8 != 0 then None else Some([])
  {
    hide CipherKey;
  }
}

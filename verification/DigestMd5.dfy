// The DIGEST-MD5 security layers (RFC 2831, sections 2.3 and 2.4): auth-int,
// and auth-conf under RC4, DES or two-key triple DES, whose keystream or CBC
// chain runs on from message to message.

module DigestMd5 {
  import opened Bytes
  import opened LayerChannel
  import StreamCipher

  const SEQ_LIMIT: nat := 0x1_0000_0000

  type Block = b: bytes | |b| == 8 witness [0, 0, 0, 0, 0, 0, 0, 0]

  datatype CipherKind = Rc4 | Des | TripleDes

  // hmac(key, message, i) is the i-th octet of HMAC-MD5; encrypt and decrypt
  // work on one block.
  datatype Primitives = Primitives(
    keystream: StreamCipher.Keystream,
    hmac: (bytes, bytes, nat) -> byte,
    encrypt: (CipherKind, bytes, Block) -> Block,
    decrypt: (CipherKind, bytes, Block) -> Block)

  // A block cipher is a keyed permutation.
  ghost predicate Invertible(prim: Primitives) {
    forall kind: CipherKind, key: bytes, b: Block :: prim.decrypt(kind, key, prim.encrypt(kind, key, b)) == b
  }

  // The cipher names the bind can propose; anything unknown keys RC4.
  function KindOf(name: string): CipherKind {
    if Lower(name) == "des" then Des else if Lower(name) == "3des" then TripleDes else Rc4
  }

  function Lower(s: string): string {
    seq(|s|, i requires 0 <= i < |s| => if 'A' <= s[i] <= 'Z' then s[i] - 'A' + 'a' else s[i])
  }

  // ---- _des_expand_key ----

  type Octets7 = k: seq<bv8> | |k| == 7 witness [0, 0, 0, 0, 0, 0, 0]

  function DesExpandKey(k: Octets7): (r: seq<bv8>)
    ensures |r| == 8
  {
    [k[0],
     (k[0] << 7) | (k[1] >> 1),
     (k[1] << 6) | (k[2] >> 2),
     (k[2] << 5) | (k[3] >> 3),
     (k[3] << 4) | (k[4] >> 4),
     (k[4] << 3) | (k[5] >> 5),
     (k[5] << 2) | (k[6] >> 6),
     k[6] << 1]
  }

  // Shift the parity bits out and close the gaps.
  function DesContractKey(e: seq<bv8>): (r: Octets7)
    requires |e| == 8
  {
    [(e[0] & 0xFE) | (e[1] >> 7),
     ((e[1] & 0xFE) << 1) | (e[2] >> 6),
     ((e[2] & 0xFE) << 2) | (e[3] >> 5),
     ((e[3] & 0xFE) << 3) | (e[4] >> 4),
     ((e[4] & 0xFE) << 4) | (e[5] >> 3),
     ((e[5] & 0xFE) << 5) | (e[6] >> 2),
     ((e[6] & 0xFE) << 6) | (e[7] >> 1)]
  }

  // The top seven bits of the eight octets spell the 56-bit string: the parity
  // bits carry nothing, so no key bit is lost.
  lemma DesKeyBitsSurvive(k: Octets7)
    ensures DesContractKey(DesExpandKey(k)) == k
  {
    SlideBits(0, k[0], k[1]);
    SlideBits(k[0], k[1], k[2]);
    SlideBits(k[1], k[2], k[3]);
    SlideBits(k[2], k[3], k[4]);
    SlideBits(k[3], k[4], k[5]);
    SlideBits(k[4], k[5], k[6]);
    SlideBits(k[5], k[6], 0);
  }

  // One octet, for each of the seven places it can stand in.
  lemma SlideBits(a: bv8, b: bv8, c: bv8)
    ensures (b & 0xFE) | (((b << 7) | (c >> 1)) >> 7) == b
    ensures ((((a << 7) | (b >> 1)) & 0xFE) << 1) | (((b << 6) | (c >> 2)) >> 6) == b
    ensures ((((a << 6) | (b >> 2)) & 0xFE) << 2) | (((b << 5) | (c >> 3)) >> 5) == b
    ensures ((((a << 5) | (b >> 3)) & 0xFE) << 3) | (((b << 4) | (c >> 4)) >> 4) == b
    ensures ((((a << 4) | (b >> 4)) & 0xFE) << 4) | (((b << 3) | (c >> 5)) >> 3) == b
    ensures ((((a << 3) | (b >> 5)) & 0xFE) << 5) | (((b << 2) | (c >> 6)) >> 2) == b
    ensures ((((a << 2) | (b >> 6)) & 0xFE) << 6) | ((b << 1) >> 1) == b
  {
  }

  function DesKey(seven: bytes): bytes
    requires |seven| == 7
  {
    var e := DesExpandKey(seq(7, i requires 0 <= i < 7 => seven[i] as bv8));
    seq(8, i requires 0 <= i < 8 => e[i] as int)
  }

  // What _build hands the cipher: the whole key for RC4, the expanded first
  // seven octets for DES, K1 K2 K1 for triple DES.
  function CipherKey(kind: CipherKind, sealKey: bytes): bytes
    requires |sealKey| == 16
  {
    match kind
    case Rc4 => sealKey
    case Des => DesKey(sealKey[..7])
    case TripleDes => DesKey(sealKey[..7]) + DesKey(sealKey[7..14]) + DesKey(sealKey[..7])
  }

  // ---- ciphers that carry over ----

  // How far a cipher object has run: a keystream position, or the last block.
  datatype Chain = Position(pos: nat) | Vector(last: Block)

  predicate ChainFits(kind: CipherKind, chain: Chain) {
    kind == Rc4 <==> chain.Position?
  }

  function FirstChain(kind: CipherKind, sealKey: bytes): Chain
    requires |sealKey| == 16
  {
    if kind == Rc4 then Position(0) else Vector(sealKey[8..16])
  }

  function CbcEncrypt(prim: Primitives, kind: CipherKind, key: bytes, last: Block, data: bytes): (r: bytes)
    requires |data| % 8 == 0
    ensures |r| == |data|
    decreases |data|
  {
    if data == [] then []
    else
      var c := prim.encrypt(kind, key, XorBytes(data[..8], last));
      c + CbcEncrypt(prim, kind, key, c, data[8..])
  }

  function CbcDecrypt(prim: Primitives, kind: CipherKind, key: bytes, last: Block, data: bytes): (r: bytes)
    requires |data| % 8 == 0
    ensures |r| == |data|
    decreases |data|
  {
    if data == [] then []
    else XorBytes(prim.decrypt(kind, key, data[..8]), last) + CbcDecrypt(prim, kind, key, data[..8], data[8..])
  }

  // The chain after some ciphertext went through in either direction.
  function LastBlock(last: Block, ciphertext: bytes): Block {
    if |ciphertext| >= 8 then ciphertext[|ciphertext| - 8..] else last
  }

  lemma {:induction false} CbcRoundTrip(prim: Primitives, kind: CipherKind, key: bytes, last: Block, data: bytes)
    requires Invertible(prim) && |data| % 8 == 0
    ensures CbcDecrypt(prim, kind, key, last, CbcEncrypt(prim, kind, key, last, data)) == data
    decreases |data|
  {
    if data != [] {
      var x := XorBytes(data[..8], last);
      var c := prim.encrypt(kind, key, x);
      var out := CbcEncrypt(prim, kind, key, last, data);
      assert out[..8] == c && out[8..] == CbcEncrypt(prim, kind, key, c, data[8..]);
      XorBytesCancels(data[..8], last);
      CbcRoundTrip(prim, kind, key, c, data[8..]);
      assert data == data[..8] + data[8..];
    }
  }

  // A cipher object's encrypt and decrypt; a CBC cipher raises on anything but
  // whole blocks.
  function Encipher(prim: Primitives, kind: CipherKind, key: bytes, chain: Chain, data: bytes): (Option<bytes>, Chain)
    requires ChainFits(kind, chain)
  {
    match chain
    case Position(pos) => (Some(StreamCipher.Rc4(prim.keystream, key, pos, data)), Position(pos + |data|))
    case Vector(last) =>
      if |data| % 8 != 0 then (None, chain)
      else
        var out := CbcEncrypt(prim, kind, key, last, data);
        (Some(out), Vector(LastBlock(last, out)))
  }

  function Decipher(prim: Primitives, kind: CipherKind, key: bytes, chain: Chain, data: bytes): (Option<bytes>, Chain)
    requires ChainFits(kind, chain)
  {
    match chain
    case Position(pos) => (Some(StreamCipher.Rc4(prim.keystream, key, pos, data)), Position(pos + |data|))
    case Vector(last) =>
      if |data| % 8 != 0 then (None, chain)
      else (Some(CbcDecrypt(prim, kind, key, last, data)), Vector(LastBlock(last, data)))
  }

  // Two objects of one key that stand at one point of the chain still do after
  // one enciphers and the other deciphers.
  lemma DecipherUndoesEncipher(prim: Primitives, kind: CipherKind, key: bytes, chain: Chain, data: bytes)
    requires Invertible(prim) && ChainFits(kind, chain)
    requires Encipher(prim, kind, key, chain, data).0.Some?
    ensures var (out, chain') := Encipher(prim, kind, key, chain, data);
            Decipher(prim, kind, key, chain, out.value) == (Some(data), chain')
  {
    match chain
    case Position(pos) =>
      StreamCipher.Rc4Cancels(prim.keystream, key, pos, data);
    case Vector(last) =>
      CbcRoundTrip(prim, kind, key, last, data);
  }

  class CipherObject {
    const prim: Primitives
    const kind: CipherKind
    const key: bytes
    var chain: Chain

    // _build
    constructor (prim: Primitives, kind: CipherKind, sealKey: bytes)
      requires |sealKey| == 16
      ensures this.prim == prim && this.kind == kind && key == CipherKey(kind, sealKey)
      ensures chain == FirstChain(kind, sealKey)
    {
      this.prim, this.kind, key := prim, kind, CipherKey(kind, sealKey);
      chain := FirstChain(kind, sealKey);
    }

    method Encrypt(data: bytes) returns (out: Option<bytes>)
      requires ChainFits(kind, chain)
      modifies this
      ensures ChainFits(kind, chain) && (out, chain) == Encipher(prim, kind, key, old(chain), data)
    {
      var (o, c) := Encipher(prim, kind, key, chain, data);
      out, chain := o, c;
    }

    method Decrypt(data: bytes) returns (out: Option<bytes>)
      requires ChainFits(kind, chain)
      modifies this
      ensures ChainFits(kind, chain) && (out, chain) == Decipher(prim, kind, key, old(chain), data)
    {
      var (o, c) := Decipher(prim, kind, key, chain, data);
      out, chain := o, c;
    }
  }

  // ---- auth-conf ----

  datatype Keys = Keys(clientSign: bytes, serverSign: bytes, clientSeal: bytes, serverSeal: bytes) {
    predicate Valid() { |clientSeal| == 16 && |serverSeal| == 16 }
    function Mirror(): Keys { Keys(serverSign, clientSign, serverSeal, clientSeal) }
  }

  datatype State = State(kind: CipherKind, keys: Keys, sendSeq: nat, recvSeq: nat, sending: Chain, receiving: Chain) {
    predicate Valid() {
      keys.Valid() && ChainFits(kind, sending) && ChainFits(kind, receiving)
    }

    function Outbound(): View { View(kind, keys.clientSign, keys.clientSeal, sending, sendSeq) }
  }

  function Fresh(kind: CipherKind, keys: Keys): State
    requires keys.Valid()
  {
    State(kind, keys, 0, 0, FirstChain(kind, keys.clientSeal), FirstChain(kind, keys.serverSeal))
  }

  // What the next outbound message depends on.
  datatype View = View(kind: CipherKind, signKey: bytes, sealKey: bytes, chain: Chain, seqNum: nat)

  // The first ten octets of the HMAC over number and message.
  function Mac(prim: Primitives, key: bytes, message: bytes): (r: bytes)
    ensures |r| == 10
  {
    seq(10, i requires 0 <= i < 10 => HmacOctet(prim, key, message, i))
  }

  function HmacOctet(prim: Primitives, key: bytes, message: bytes, i: nat): byte {
    prim.hmac(key, message, i)
  }

  // Between one and eight octets, so that text, pad and MAC fill whole blocks.
  function PadLength(n: nat): nat { 8 - (n + 10) % 8 }

  function Padding(n: nat): (r: bytes)
    ensures |r| == PadLength(n)
  {
    seq(PadLength(n), i => PadLength(n))
  }

  // The unit that gets encrypted.
  function Plain(kind: CipherKind, text: bytes, mac: bytes): bytes {
    if kind == Rc4 then text + mac else text + Padding(|text|) + mac
  }

  // What unwrap makes of a decrypted unit.
  function Unpadded(kind: CipherKind, decrypted: bytes): bytes {
    var msg := ButLast(decrypted, 10);
    if kind != Rc4 && msg != [] then ButLast(msg, msg[|msg| - 1]) else msg
  }

  // A block-cipher unit is whole blocks with a pad of one to eight octets, and
  // stripping recovers the text, the empty text included.
  lemma PaddingIsReversible(kind: CipherKind, text: bytes, mac: bytes)
    requires |mac| == 10
    ensures kind != Rc4 ==> |Plain(kind, text, mac)| % 8 == 0 && 1 <= PadLength(|text|) <= 8
    ensures Unpadded(kind, Plain(kind, text, mac)) == text
  {
    var body := Plain(kind, text, mac);
    if kind == Rc4 {
      assert ButLast(body, 10) == text;
    } else {
      var padded := text + Padding(|text|);
      assert ButLast(body, 10) == padded;
      assert ButLast(padded, PadLength(|text|)) == text;
    }
  }

  // wrap, from the sender's view; the number must fit struct's "!I".
  function SealMessage(prim: Primitives, v: View, text: bytes): (Option<bytes>, View)
    requires ChainFits(v.kind, v.chain) && |v.sealKey| == 16
  {
    if v.seqNum >= SEQ_LIMIT then (None, v)
    else
      var number := PackBE(v.seqNum, 4);
      var body := Plain(v.kind, text, Mac(prim, v.signKey, number + text));
      var (out, chain) := Encipher(prim, v.kind, CipherKey(v.kind, v.sealKey), v.chain, body);
      match out
      case None => (None, v.(chain := chain))
      case Some(ciphertext) => (Some(ciphertext + [0, 1] + number), v.(chain := chain, seqNum := v.seqNum + 1))
  }

  // DigestMd5ConfLayerStrategy.wrap
  function Wrap(prim: Primitives, s: State, text: bytes): (Option<bytes>, State) {
    if !s.Valid() then (None, s)
    else
      var (wire, v) := SealMessage(prim, s.Outbound(), text);
      (wire, s.(sendSeq := v.seqNum, sending := v.chain))
  }

  // DigestMd5ConfLayerStrategy.unwrap
  function Unwrap(prim: Primitives, s: State, wrapped: bytes): (Option<bytes>, State) {
    if !s.Valid() then (None, s)
    else
      var key := CipherKey(s.kind, s.keys.serverSeal);
      var (out, chain) := Decipher(prim, s.kind, key, s.receiving, ButLast(wrapped, 6));
      match out
      case None => (None, s.(receiving := chain))
      case Some(decrypted) =>
        (Some(Unpadded(s.kind, decrypted)), s.(receiving := chain, recvSeq := s.recvSeq + 1))
  }

  class DigestMd5ConfLayerStrategy {
    const prim: Primitives
    const kind: CipherKind
    const keys: Keys
    const sendCipher: CipherObject
    const recvCipher: CipherObject
    var sendSeq: nat
    var recvSeq: nat

    ghost predicate Valid()
      reads sendCipher, recvCipher
    {
      && keys.Valid() && sendCipher != recvCipher
      && sendCipher.prim == recvCipher.prim == prim && sendCipher.kind == recvCipher.kind == kind
      && sendCipher.key == CipherKey(kind, keys.clientSeal)
      && recvCipher.key == CipherKey(kind, keys.serverSeal)
      && ChainFits(kind, sendCipher.chain) && ChainFits(kind, recvCipher.chain)
    }

    ghost function Abstract(): (s: State)
      requires Valid()
      reads this, sendCipher, recvCipher
      ensures s.Valid()
    {
      State(kind, keys, sendSeq, recvSeq, sendCipher.chain, recvCipher.chain)
    }

    // __post_init__: one cipher per direction for the life of the connection.
    constructor (prim: Primitives, cipher: string, keys: Keys)
      requires keys.Valid()
      ensures Valid() && this.prim == prim && Abstract() == Fresh(KindOf(cipher), keys)
      ensures fresh(sendCipher) && fresh(recvCipher)
    {
      this.prim, this.kind, this.keys := prim, KindOf(cipher), keys;
      sendCipher := new CipherObject(prim, KindOf(cipher), keys.clientSeal);
      recvCipher := new CipherObject(prim, KindOf(cipher), keys.serverSeal);
      sendSeq, recvSeq := 0, 0;
    }

    method WrapMessage(plaintext: bytes) returns (wire: Option<bytes>)
      requires Valid()
      modifies this, sendCipher
      ensures Valid() && (wire, Abstract()) == Wrap(prim, old(Abstract()), plaintext)
    {
      hide CipherKey, Encipher, Mac;
      if sendSeq >= SEQ_LIMIT {
        return None;
      }
      var number := PackBE(sendSeq, 4);
      var mac := Mac(prim, keys.clientSign, number + plaintext);
      var body := plaintext + mac;
      if kind != Rc4 {
        body := plaintext + Padding(|plaintext|) + mac;
      }
      var ciphertext := sendCipher.Encrypt(body);
      if ciphertext == None {
        return None;
      }
      wire := Some(ciphertext.value + [0, 1] + number);
      sendSeq := sendSeq + 1;
    }

    method UnwrapMessage(wrapped: bytes) returns (plain: Option<bytes>)
      requires Valid()
      modifies this, recvCipher
      ensures Valid() && (plain, Abstract()) == Unwrap(prim, old(Abstract()), wrapped)
    {
      hide CipherKey, Decipher;
      var decrypted := recvCipher.Decrypt(ButLast(wrapped, 6));
      if decrypted == None {
        return None;
      }
      var msg := ButLast(decrypted.value, 10);
      if kind != Rc4 && msg != [] {
        msg := ButLast(msg, msg[|msg| - 1]);
      }
      recvSeq := recvSeq + 1;
      plain := Some(msg);
    }
  }

  function ConfLayer(prim: Primitives): Layer<State> {
    Layer((s: State, p: bytes) => Wrap(prim, s, p), (s: State, w: bytes) => Unwrap(prim, s, w))
  }

  predicate Accepts(r: State, v: View) {
    r.kind == v.kind && r.keys.serverSeal == v.sealKey && r.receiving == v.chain && r.recvSeq == v.seqNum
  }

  function ConfContract(prim: Primitives): Contract<State, View> {
    Contract(
      (s: State) => s.Valid(),
      (s: State) => s.Outbound(),
      (v: View, p: bytes) =>
        if ChainFits(v.kind, v.chain) && |v.sealKey| == 16 then SealMessage(prim, v, p) else (None, v),
      (r: State, v: View) => Accepts(r, v),
      (r: State, v: View, wire: bytes) => true)
  }

  // A receiver standing where the sender stood gets the text back and moves to
  // where the sender now stands, whichever cipher it is.
  lemma DeliveredIntact(prim: Primitives, r: State, v: View, text: bytes)
    requires Invertible(prim) && r.Valid() && Accepts(r, v)
    requires SealMessage(prim, v, text).0.Some?
    ensures var (wire, v') := SealMessage(prim, v, text);
            var (plain, r') := Unwrap(prim, r, wire.value);
            plain == Some(text) && r'.Valid() && Accepts(r', v') && r'.Outbound() == r.Outbound()
  {
    var (wire, v') := SealMessage(prim, v, text);
    hide CipherKey;
    var mac := Mac(prim, v.signKey, PackBE(v.seqNum, 4) + text);
    var body := Plain(v.kind, text, mac);
    var key := CipherKey(v.kind, v.sealKey);
    PaddingIsReversible(v.kind, text, mac);
    DecipherUndoesEncipher(prim, v.kind, key, v.chain, body);
    assert ButLast(wire.value, 6) == Encipher(prim, v.kind, key, v.chain, body).0.value;
  }

  lemma ConfConforms(prim: Primitives)
    requires Invertible(prim)
    ensures Conforms(ConfLayer(prim), ConfContract(prim))
  {
    var l, c := ConfLayer(prim), ConfContract(prim);
    forall s: State, p: bytes ensures WrapAdvances(l, c, s, p) && WrapKeepsInbound(l, c, s, p) {
      assert l.wrap(s, p) == Wrap(prim, s, p);
    }
    forall r: State, wire: bytes ensures UnwrapKeepsOutbound(l, c, r, wire) {
      assert l.unwrap(r, wire) == Unwrap(prim, r, wire);
    }
    forall r: State, v: View, p: bytes ensures UnwrapReturns(l, c, r, v, p) {
      var (wire, v') := c.seal(v, p);
      if wire.Some? && c.valid(r) && c.accepts(r, v) {
        DeliveredIntact(prim, r, v, p);
      }
    }
  }

  // For every cipher and every interleaving of messages both ways, the n-th
  // message unwrapped is the n-th message wrapped.
  lemma ConfSessionIsFaithful(prim: Primitives, kind: CipherKind, keys: Keys, acts: seq<Action>)
    requires Invertible(prim) && keys.Valid()
    ensures var a, b := Fresh(kind, keys), Fresh(kind, keys.Mirror());
            var w := Run(ConfLayer(prim), ConfContract(prim), Opened(a, b), acts);
            && w.ab.got <= w.ab.sent && w.ba.got <= w.ba.sent
            && (w.ab.flight == [] ==> w.ab.got == w.ab.sent)
            && (w.ba.flight == [] ==> w.ba.got == w.ba.sent)
  {
    var l, c := ConfLayer(prim), ConfContract(prim);
    var a, b := Fresh(kind, keys), Fresh(kind, keys.Mirror());
    ConfConforms(prim);
    EverythingFits(l, c, Opened(a, b), acts);
    SessionIsFaithful(l, c, a, b, acts);
  }

  // Wrapping raises exactly when the number no longer fits its four octets:
  // padding always leaves a block cipher whole blocks.
  lemma WrapRaisesOnlyOnOverflow(prim: Primitives, v: View, text: bytes)
    requires ChainFits(v.kind, v.chain) && |v.sealKey| == 16
    ensures SealMessage(prim, v, text).0.Some? <==> v.seqNum < 0x1_0000_0000
    ensures SealMessage(prim, v, text).0 == None ==> SealMessage(prim, v, text).1 == v
  {
    PaddingIsReversible(v.kind, text, Mac(prim, v.signKey, PackBE(v.seqNum, 4) + text));
  }

  // ---- auth-int ----

  datatype IntState = IntState(clientSign: bytes, serverSign: bytes, sendSeq: nat, recvSeq: nat)

  // DigestMd5IntLayerStrategy.wrap
  function IntWrap(prim: Primitives, s: IntState, text: bytes): (Option<bytes>, IntState) {
    if s.sendSeq >= SEQ_LIMIT then (None, s)
    else
      var number := PackBE(s.sendSeq, 4);
      (Some(text + Mac(prim, s.clientSign, number + text) + [0, 1] + number), s.(sendSeq := s.sendSeq + 1))
  }

  // DigestMd5IntLayerStrategy.unwrap: the trailer is cut off, not checked.
  function IntUnwrap(s: IntState, wrapped: bytes): (Option<bytes>, IntState) {
    (Some(ButLast(wrapped, 16)), s.(recvSeq := s.recvSeq + 1))
  }

  class DigestMd5IntLayerStrategy {
    const prim: Primitives
    const clientSign: bytes
    const serverSign: bytes
    var sendSeq: nat
    var recvSeq: nat

    ghost function Abstract(): IntState
      reads this
    {
      IntState(clientSign, serverSign, sendSeq, recvSeq)
    }

    constructor (prim: Primitives, clientSign: bytes, serverSign: bytes)
      ensures this.prim == prim && Abstract() == IntState(clientSign, serverSign, 0, 0)
    {
      this.prim, this.clientSign, this.serverSign := prim, clientSign, serverSign;
      sendSeq, recvSeq := 0, 0;
    }

    method WrapMessage(plaintext: bytes) returns (wire: Option<bytes>)
      modifies this
      ensures (wire, Abstract()) == IntWrap(prim, old(Abstract()), plaintext)
    {
      if sendSeq >= SEQ_LIMIT {
        return None;
      }
      var number := PackBE(sendSeq, 4);
      var mac := Mac(prim, clientSign, number + plaintext);
      wire := Some(plaintext + mac + [0, 1] + number);
      sendSeq := sendSeq + 1;
    }

    method UnwrapMessage(wrapped: bytes) returns (plain: Option<bytes>)
      modifies this
      ensures (plain, Abstract()) == IntUnwrap(old(Abstract()), wrapped)
    {
      plain := Some(ButLast(wrapped, 16));
      recvSeq := recvSeq + 1;
    }
  }

  function IntLayer(prim: Primitives): Layer<IntState> {
    Layer((s: IntState, p: bytes) => IntWrap(prim, s, p), (s: IntState, w: bytes) => IntUnwrap(s, w))
  }

  // The view is the state itself; a receiver must be at the sender's number.
  function IntContract(prim: Primitives): Contract<IntState, (bytes, nat)> {
    Contract(
      (s: IntState) => true,
      (s: IntState) => (s.clientSign, s.sendSeq),
      (v: (bytes, nat), p: bytes) =>
        var (wire, s) := IntWrap(prim, IntState(v.0, [], v.1, 0), p); (wire, (v.0, s.sendSeq)),
      (r: IntState, v: (bytes, nat)) => r.serverSign == v.0 && r.recvSeq == v.1,
      (r: IntState, v: (bytes, nat), wire: bytes) => true)
  }

  lemma IntConforms(prim: Primitives)
    ensures Conforms(IntLayer(prim), IntContract(prim))
  {
    var l, c := IntLayer(prim), IntContract(prim);
    forall s: IntState, p: bytes ensures WrapAdvances(l, c, s, p) && WrapKeepsInbound(l, c, s, p) {
      assert l.wrap(s, p) == IntWrap(prim, s, p);
    }
    forall r: IntState, wire: bytes ensures UnwrapKeepsOutbound(l, c, r, wire) {
      assert l.unwrap(r, wire) == IntUnwrap(r, wire);
    }
    forall r: IntState, v: (bytes, nat), p: bytes ensures UnwrapReturns(l, c, r, v, p) {
      var (wire, v') := c.seal(v, p);
      if wire.Some? && c.accepts(r, v) {
        var number := PackBE(v.1, 4);
        assert wire.value == p + (Mac(prim, v.0, number + p) + [0, 1] + number);
        assert ButLast(wire.value, 16) == p;
      }
    }
  }

  lemma IntSessionIsFaithful(prim: Primitives, a: IntState, b: IntState, acts: seq<Action>)
    requires a.clientSign == b.serverSign && a.serverSign == b.clientSign
    requires a.sendSeq == b.recvSeq && b.sendSeq == a.recvSeq
    ensures var w := Run(IntLayer(prim), IntContract(prim), Opened(a, b), acts);
            && w.ab.got <= w.ab.sent && w.ba.got <= w.ba.sent
            && (w.ab.flight == [] ==> w.ab.got == w.ab.sent)
            && (w.ba.flight == [] ==> w.ba.got == w.ba.sent)
  {
    var l, c := IntLayer(prim), IntContract(prim);
    IntConforms(prim);
    EverythingFits(l, c, Opened(a, b), acts);
    SessionIsFaithful(l, c, a, b, acts);
  }
}

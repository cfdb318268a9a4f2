// NTLM signing and sealing of post-bind messages (MS-NLMP, sections 3.4 to
// 3.4.4): the strategy's transition functions, and the class that carries them
// out on mutable RC4 handles.

module NtlmLayer {
  import opened Bytes
  import opened Ber
  import opened StreamCipher

  // The NEGOTIATE flag bits that decide anything here.
  datatype NtlmFlags = NtlmFlags(
    ess: bool,       // EXTENDED_SESSIONSECURITY
    sign: bool,
    seal: bool,
    lmKey: bool,
    datagram: bool,  // NEGOTIATE_DATAGRAM, which this client never asks for
    key56: bool)

  datatype Direction = Client | Server

  // The cryptographic primitives; checksum(ess, key, seq, message, i) is the
  // i-th octet MAC() puts through the handle.
  datatype Primitives = Primitives(
    keystream: Keystream,
    md5: bytes -> bytes,
    checksum: (bool, bytes, nat, bytes, nat) -> byte,
    signKey: (NtlmFlags, bytes, Direction) -> bytes,
    sealKey: (NtlmFlags, bytes, Direction) -> bytes)

  // ---- keys ----

  // _legacy_seal_key
  function LegacySealKey(flags: NtlmFlags, exported: bytes): bytes {
    if flags.lmKey || flags.datagram then
      if flags.key56 then Take(exported, 7) + [0xA0]
      else Take(exported, 5) + [0xE5, 0x38, 0xB0]
    else exported
  }

  // seal_key
  function SealKey(prim: Primitives, flags: NtlmFlags, exported: bytes, mode: Direction): bytes {
    if flags.ess then prim.sealKey(flags, exported, mode) else LegacySealKey(flags, exported)
  }

  // What build_ntlm_layer_strategy fixes for the life of the connection.
  datatype Config = Config(
    flags: NtlmFlags,
    sealOut: bool,
    datagram: bool,
    clientSignKey: bytes,
    clientSealKey: bytes,
    serverSignKey: bytes,
    serverSealKey: bytes)
  {
    // _shares_sequence
    predicate SharesSequence() { !flags.ess && !datagram }

    // Without extended session security there is a single sealing key.
    predicate Valid() { !flags.ess ==> clientSealKey == serverSealKey }

    // The same session seen from the other end.
    function Mirror(peerSealOut: bool): Config {
      Config(flags, peerSealOut, datagram, serverSignKey, serverSealKey, clientSignKey, clientSealKey)
    }
  }

  // build_ntlm_layer_strategy. Half-duplex sessions have one sealing key, a
  // datagram session always seals, and otherwise bodies are sealed for SEAL,
  // or for SIGN too under --ntlm-always-seal.
  function BuildConfig(prim: Primitives, flags: NtlmFlags, exported: bytes,
                       gssWrapped: bool, alwaysSeal: bool): (cfg: Config)
    ensures cfg.Valid()
    ensures cfg.datagram <==> gssWrapped && flags.seal && !flags.sign
    ensures cfg.datagram ==> cfg.sealOut
    ensures cfg.SharesSequence() ==> cfg.clientSealKey == cfg.serverSealKey
    ensures cfg.sealOut <==> flags.seal || (flags.sign && alwaysSeal)
  {
    Config(
      flags,
      if alwaysSeal then flags.sign || flags.seal else flags.seal,
      gssWrapped && flags.seal && !flags.sign,
      prim.signKey(flags, exported, Client),
      SealKey(prim, flags, exported, Client),
      prim.signKey(flags, exported, Server),
      SealKey(prim, flags, exported, Server))
  }

  // ---- the signature ----

  // Octets of keystream one signature consumes.
  function MacCost(ess: bool): nat { if ess then 8 else 12 }

  function ChecksumOctet(prim: Primitives, ess: bool, signKey: bytes, seqNum: nat, message: bytes, i: nat): byte {
    prim.checksum(ess, signKey, seqNum, message, i)
  }

  function ChecksumOctets(prim: Primitives, ess: bool, signKey: bytes, seqNum: nat, message: bytes): (r: bytes)
    ensures |r| == MacCost(ess)
  {
    var n := MacCost(ess);
    seq(n, i requires 0 <= i < n => ChecksumOctet(prim, ess, signKey, seqNum, message, i))
  }

  // MAC(): the 16-octet NTLMSSP_MESSAGE_SIGNATURE off a handle at pos. With
  // extended session security the sequence number travels in the clear.
  function Signature(prim: Primitives, ess: bool, key: bytes, pos: nat,
                     signKey: bytes, seqNum: nat, message: bytes): (r: bytes)
    ensures |r| == 16
  {
    var masked := Rc4(prim.keystream, key, pos, ChecksumOctets(prim, ess, signKey, seqNum, message));
    if ess then [1, 0, 0, 0] + masked + PackLE(seqNum, 4) else [1, 0, 0, 0] + masked
  }

  // ---- the strategy as transition functions ----

  // Everything the next outbound message depends on.
  datatype View = View(
    ess: bool,
    datagram: bool,
    sealed: bool,
    signKey: bytes,
    sealKey: bytes,
    pos: nat,
    seqNum: nat)

  // Continuous positions: one per direction, or one for both.
  datatype Streams = Split(send: nat, recv: nat) | Shared(both: nat) {
    function Send(): nat { if Split? then send else both }
    function Recv(): nat { if Split? then recv else both }
    function WithSend(p: nat): Streams { if Split? then Split(p, recv) else Shared(p) }
    function WithRecv(p: nat): Streams { if Split? then Split(send, p) else Shared(p) }
  }

  datatype State = State(cfg: Config, sendSeq: nat, recvSeq: nat, sealIn: Option<bool>, streams: Streams) {
    predicate Valid() {
      cfg.Valid() && (cfg.flags.ess <==> streams.Split?)
    }

    function Outbound(): View {
      View(cfg.flags.ess, cfg.datagram, cfg.sealOut, cfg.clientSignKey, cfg.clientSealKey,
           streams.Send(), sendSeq)
    }
  }

  function Fresh(cfg: Config, firstSeq: nat): State {
    State(cfg, firstSeq, firstSeq, None, if cfg.flags.ess then Split(0, 0) else Shared(0))
  }

  const SEQ_LIMIT: nat := 0x1_0000_0000

  // _handle: the key a message starts from. Datagram mode reinitialises per
  // message, rekeying by sequence number under extended session security only.
  function MessageKey(prim: Primitives, ess: bool, datagram: bool, base: bytes, seqNum: nat): bytes {
    if datagram && ess then prim.md5(base + PackLE(seqNum, 4)) else base
  }

  // One outbound message at view v. The number must fit its four octets; when
  // it does not, the body has already gone through a continuous handle.
  function SealMessage(prim: Primitives, v: View, plain: bytes): (Option<bytes>, View) {
    var key := MessageKey(prim, v.ess, v.datagram, v.sealKey, v.seqNum);
    var pos := if v.datagram then 0 else v.pos;
    var body := if v.sealed then Rc4(prim.keystream, key, pos, plain) else plain;
    var after := if v.sealed then pos + |plain| else pos;
    if v.seqNum >= SEQ_LIMIT then
      (None, if v.datagram then v else v.(pos := after))
    else
      // A legacy datagram signature comes off a handle of its own.
      var macPos := if v.datagram && !v.ess then 0 else after;
      var sig := Signature(prim, v.ess, key, macPos, v.signKey, v.seqNum, plain);
      var next := if v.datagram then v.pos else after + MacCost(v.ess);
      (Some(sig + body), v.(pos := next, seqNum := v.seqNum + 1))
  }

  // NTLMLayerStrategy.wrap
  function Wrap(prim: Primitives, s: State, plain: bytes): (Option<bytes>, State) {
    var (wire, v) := SealMessage(prim, s.Outbound(), plain);
    var recvSeq := if wire.Some? && s.cfg.SharesSequence() then v.seqNum else s.recvSeq;
    (wire, s.(sendSeq := v.seqNum, recvSeq := recvSeq, streams := s.streams.WithSend(v.pos)))
  }

  // NTLMLayerStrategy.unwrap. It raises only where a datagram signature is too
  // short to hold a sequence number.
  function Unwrap(prim: Primitives, s: State, wrapped: bytes): (Option<bytes>, State) {
    var signature, payload := Take(wrapped, 16), Drop(wrapped, 16);
    if s.cfg.datagram && s.cfg.flags.ess && |signature| < 16 then (None, s)
    else
      var seqNum := if s.cfg.datagram && s.cfg.flags.ess then UnpackLE(signature[12..16]) else s.recvSeq;
      var key := MessageKey(prim, s.cfg.flags.ess, s.cfg.datagram, s.cfg.serverSealKey, seqNum);
      var pos := if s.cfg.datagram then 0 else s.streams.Recv();
      var sealed := if s.sealIn.Some? then s.sealIn.value else !LooksLikeCleartext(payload);
      var plain := if sealed then Rc4(prim.keystream, key, pos, payload) else payload;
      var after := pos + (if sealed then |payload| else 0) + MacCost(s.cfg.flags.ess);
      var sendSeq := if s.cfg.SharesSequence() then seqNum + 1 else s.sendSeq;
      var streams := if s.cfg.datagram then s.streams else s.streams.WithRecv(after);
      (Some(plain), State(s.cfg, sendSeq, seqNum + 1, Some(sealed), streams))
  }

  // A call on a strategy.
  datatype Call = CallWrap(plain: bytes) | CallUnwrap(wrapped: bytes)

  function CallOnce(prim: Primitives, s: State, call: Call): (Option<bytes>, State) {
    match call
    case CallWrap(p) => Wrap(prim, s, p)
    case CallUnwrap(w) => Unwrap(prim, s, w)
  }

  // ---- the class ----

  // A PyCryptodome ARC4 object: a key and how far its keystream has run.
  class Arc4 {
    const keystream: Keystream
    const key: bytes
    var pos: nat

    constructor (keystream: Keystream, key: bytes)
      ensures this.keystream == keystream && this.key == key && pos == 0
    {
      this.keystream, this.key, pos := keystream, key, 0;
    }

    method Encrypt(data: bytes) returns (out: bytes)
      modifies this
      ensures out == Rc4(keystream, key, old(pos), data)
      ensures pos == old(pos) + |data|
    {
      out := Rc4(keystream, key, pos, data);
      pos := pos + |data|;
    }
  }

  // impacket's MAC(): consumes the handle, or raises on a number that does not
  // fit before touching it.
  method Mac(prim: Primitives, flags: NtlmFlags, handle: Arc4, signKey: bytes, seqNum: nat, message: bytes)
    returns (sig: Option<bytes>)
    requires handle.keystream == prim.keystream
    modifies handle
    ensures seqNum >= SEQ_LIMIT ==> sig == None && handle.pos == old(handle.pos)
    ensures seqNum < SEQ_LIMIT ==>
              && sig == Some(Signature(prim, flags.ess, handle.key, old(handle.pos), signKey, seqNum, message))
              && handle.pos == old(handle.pos) + MacCost(flags.ess)
  {
    if seqNum >= SEQ_LIMIT {
      return None;
    }
    var masked := handle.Encrypt(ChecksumOctets(prim, flags.ess, signKey, seqNum, message));
    if flags.ess {
      sig := Some([1, 0, 0, 0] + masked + PackLE(seqNum, 4));
    } else {
      sig := Some([1, 0, 0, 0] + masked);
    }
  }

  class NTLMLayerStrategy {
    const prim: Primitives
    const cfg: Config
    const clientSealHandle: Arc4
    const serverSealHandle: Arc4
    var sendSeq: nat
    var recvSeq: nat
    var sealIn: Option<bool>

    // The two directions run off one RC4 object exactly when extended session
    // security is absent.
    ghost predicate Valid() {
      && cfg.Valid()
      && (cfg.flags.ess <==> clientSealHandle != serverSealHandle)
      && clientSealHandle.key == cfg.clientSealKey && serverSealHandle.key == cfg.serverSealKey
      && clientSealHandle.keystream == prim.keystream == serverSealHandle.keystream
    }

    function Abstract(): (s: State)
      requires Valid()
      reads this, clientSealHandle, serverSealHandle
      ensures s.Valid() && s.cfg == cfg
    {
      State(cfg, sendSeq, recvSeq, sealIn,
            if clientSealHandle == serverSealHandle then Shared(clientSealHandle.pos)
            else Split(clientSealHandle.pos, serverSealHandle.pos))
    }

    // build_ntlm_layer_strategy
    constructor (prim: Primitives, flags: NtlmFlags, exported: bytes, gssWrapped: bool, alwaysSeal: bool)
      ensures Valid() && this.prim == prim
      ensures Abstract() == Fresh(BuildConfig(prim, flags, exported, gssWrapped, alwaysSeal), 0)
      ensures fresh(clientSealHandle) && fresh(serverSealHandle)
    {
      var clientKey := SealKey(prim, flags, exported, Client);
      var serverKey := SealKey(prim, flags, exported, Server);
      var client := new Arc4(prim.keystream, clientKey);
      var server := client;
      if flags.ess {
        server := new Arc4(prim.keystream, serverKey);
      }
      this.prim := prim;
      this.cfg := BuildConfig(prim, flags, exported, gssWrapped, alwaysSeal);
      this.clientSealHandle, this.serverSealHandle := client, server;
      sendSeq, recvSeq, sealIn := 0, 0, None;
    }

    // _handle. The rekey packs the number into four octets, and raises when it
    // does not fit.
    method Handle(baseKey: bytes, seqNum: nat, continuous: Arc4) returns (h: Option<Arc4>)
      ensures h == None <==> cfg.datagram && cfg.flags.ess && seqNum >= SEQ_LIMIT
      ensures h.Some? && !cfg.datagram ==> h.value == continuous
      ensures h.Some? && cfg.datagram ==>
                && fresh(h.value) && h.value.pos == 0 && h.value.keystream == prim.keystream
                && h.value.key == MessageKey(prim, cfg.flags.ess, true, baseKey, seqNum)
    {
      if cfg.datagram {
        var key := baseKey;
        if cfg.flags.ess {
          if seqNum >= SEQ_LIMIT {
            return None;
          }
          key := prim.md5(key + PackLE(seqNum, 4));
        }
        var a := new Arc4(prim.keystream, key);
        return Some(a);
      }
      return Some(continuous);
    }

    method WrapMessage(plaintext: bytes) returns (wire: Option<bytes>)
      requires Valid()
      modifies this, clientSealHandle
      ensures (wire, Abstract()) == Wrap(prim, old(Abstract()), plaintext)
    {
      var h := Handle(cfg.clientSealKey, sendSeq, clientSealHandle);
      if h == None {
        return None;
      }
      var handle := h.value;
      var sealed := plaintext;
      if cfg.sealOut {
        sealed := handle.Encrypt(plaintext);
      }
      var macHandle := handle;
      if cfg.datagram && !cfg.flags.ess {
        h := Handle(cfg.clientSealKey, sendSeq, clientSealHandle);
        macHandle := h.value;
      }
      var sig := Mac(prim, cfg.flags, macHandle, cfg.clientSignKey, sendSeq, plaintext);
      if sig == None {
        return None;
      }
      sendSeq := sendSeq + 1;
      if cfg.SharesSequence() {
        recvSeq := sendSeq;
      }
      wire := Some(sig.value + sealed);
    }

    method UnwrapMessage(wrapped: bytes) returns (plain: Option<bytes>)
      requires Valid()
      modifies this, serverSealHandle
      ensures (plain, Abstract()) == Unwrap(prim, old(Abstract()), wrapped)
    {
      hide LooksLikeCleartext;
      var signature, payload := Take(wrapped, 16), Drop(wrapped, 16);
      if cfg.datagram && cfg.flags.ess {
        if |signature| < 16 {
          return None;
        }
        UnpackLEBound(signature[12..16]);
        recvSeq := UnpackLE(signature[12..16]);
      }
      var h := Handle(cfg.serverSealKey, recvSeq, serverSealHandle);
      var handle := h.value;
      if sealIn == None {
        sealIn := Some(!LooksLikeCleartext(payload));
      }
      var text := payload;
      if sealIn.value {
        text := handle.Encrypt(payload);
      }
      var ignored := handle.Encrypt(seq(MacCost(cfg.flags.ess), _ => 0));
      recvSeq := recvSeq + 1;
      if cfg.SharesSequence() {
        sendSeq := recvSeq;
      }
      plain := Some(text);
    }
  }

  lemma {:induction false} UnpackLEBound(b: bytes)
    ensures UnpackLE(b) < Pow256(|b|)
    ensures |b| == 4 ==> UnpackLE(b) < SEQ_LIMIT
  {
    if b != [] {
      UnpackLEBound(b[1..]);
    }
    Pow256Values();
  }
}

// Kerberos per-message tokens: the RFC 4121 Wrap token with its rotation
// (sections 4.2.4 and 4.2.5), the RFC 4757 unsealed token, and the strategy
// that numbers them.

module KrbTokens {
  import opened Bytes
  import opened LayerChannel

  datatype Key = Key(enctype: nat, contents: bytes)

  const RC4_HMAC: nat := 23

  datatype Role = Initiator | Acceptor {
    function Peer(): Role { if Initiator? then Acceptor else Initiator }
  }

  // Library code, as functions: checksum(key, sealer, data, i) is the i-th
  // octet of the keyed checksum under the sealer's key usage; rc4Checksum and
  // sndSeq the same for RFC 4757; sealWrap and sealUnwrap stand for
  // GSS_Wrap_LDAP and GSS_Unwrap_LDAP; envelope and parseEnvelope for the
  // [APPLICATION 0] + OID wrapper; confounder(n) for the random octets drawn
  // for message n.
  datatype Primitives = Primitives(
    macSize: nat -> nat,
    checksum: (Key, Role, bytes, nat) -> byte,
    rc4Checksum: (bytes, bytes, nat) -> byte,
    sndSeq: (bytes, bytes, nat, nat) -> byte,
    confounder: (nat, nat) -> byte,
    sealWrap: (Role, Key, bytes, nat) -> bytes,
    sealUnwrap: (Role, Key, bytes) -> Option<bytes>,
    envelope: bytes -> bytes,
    parseEnvelope: bytes -> Option<bytes>)

  ghost predicate SealInverts(prim: Primitives, role: Role, key: Key, plain: bytes, n: nat) {
    prim.sealUnwrap(role.Peer(), key, prim.sealWrap(role, key, plain, n)) == Some(plain)
  }

  ghost predicate EnvelopeInverts(prim: Primitives, data: bytes) {
    && Take(prim.envelope(data), 1) == [0x60]
    && prim.parseEnvelope(prim.envelope(data)) == Some(data)
  }

  // What the library promises.
  ghost predicate Sound(prim: Primitives) {
    && (forall e: nat :: 0 < prim.macSize(e) < 0x1_0000)
    && (forall role: Role, key: Key, plain: bytes, n: nat :: SealInverts(prim, role, key, plain, n))
    && (forall data: bytes :: EnvelopeInverts(prim, data))
  }

  // ---- RFC 4121 Wrap tokens ----

  const SEQ_LIMIT: nat := 0x1_0000_0000_0000_0000

  function WrapHeader(flags: byte, ec: nat, rrc: nat, n: nat): (r: bytes)
    ensures |r| == 16
  {
    [5, 4, flags, 0xFF] + PackBE(ec, 2) + PackBE(rrc, 2) + PackBE(n, 8)
  }

  // _cfx_checksum_header: EC and RRC count as zero.
  function ChecksumHeader(flags: byte, n: nat): bytes {
    WrapHeader(flags, 0, 0, n)
  }

  function Checksum(prim: Primitives, key: Key, sealer: Role, data: bytes): (r: bytes)
    ensures |r| == prim.macSize(key.enctype)
  {
    var size := prim.macSize(key.enctype);
    seq(size, i requires 0 <= i < size => ChecksumOctet(prim, key, sealer, data, i))
  }

  function ChecksumOctet(prim: Primitives, key: Key, sealer: Role, data: bytes, i: nat): byte {
    prim.checksum(key, sealer, data, i)
  }

  // Canonical body: data followed by its checksum.
  function WrapBody(prim: Primitives, key: Key, sealer: Role, flags: byte, payload: bytes, n: nat): bytes {
    payload + Checksum(prim, key, sealer, payload + ChecksumHeader(flags, n))
  }

  // build_unsealed_wrap_token; the client's flags are 4. struct's ">Q" holds
  // 64 bits.
  function BuildUnsealed(prim: Primitives, key: Key, sealer: Role, flags: byte, payload: bytes, n: nat): Option<bytes> {
    if n >= SEQ_LIMIT then None
    else Some(WrapHeader(flags, prim.macSize(key.enctype), 0, n) + WrapBody(prim, key, sealer, flags, payload, n))
  }

  datatype Unpacked = Unpacked(flags: byte, ec: nat, n: nat, rrc: nat, checksum: bytes, payload: bytes)

  // The code's way of undoing the rotation, clamped slices included.
  function Unrotate(body: bytes, rrc: nat): bytes {
    if rrc != 0 then Drop(body, rrc) + Take(body, rrc) else body
  }

  // unpack_wrap_token
  function Unpack(data: bytes): Option<Unpacked> {
    if |data| < 16 || data[..2] != [5, 4] then None
    else
      var ec, rrc := UnpackBE(data[4..6]), UnpackBE(data[6..8]);
      var body := data[16..];
      if |body| < ec then None
      else
        var canonical := Unrotate(body, rrc);
        Some(Unpacked(data[2], ec, UnpackBE(data[8..16]), rrc, Last(canonical, ec), ButLast(canonical, ec)))
  }

  // verify_unsealed_wrap_token, for a token its peer sealed.
  function VerifyUnsealed(prim: Primitives, key: Key, sealer: Role, token: bytes): Option<bytes> {
    match Unpack(token)
    case None => None
    case Some(u) =>
      if Checksum(prim, key, sealer, u.payload + ChecksumHeader(u.flags, u.n)) == u.checksum then Some(u.payload)
      else None
  }

  // RFC 4121's rotation: right by rrc octets, around and around if need be.
  function RotateRight(body: bytes, rrc: nat): (r: bytes)
    ensures |r| == |body|
  {
    if body == [] then []
    else
      var cut := |body| - rrc % |body|;
      body[cut..] + body[..cut]
  }

  // The same token rotated on the wire, with its RRC field saying so.
  function Rotated(token: bytes, rrc: nat): bytes
    requires |token| >= 16
  {
    token[..6] + PackBE(rrc, 2) + token[8..16] + RotateRight(token[16..], rrc)
  }

  // Which counts the code undoes: those no larger than the body, and multiples
  // of its length.
  predicate Undone(rrc: nat, size: nat) {
    rrc <= size || (size > 0 && rrc % size == 0)
  }

  // RotateRight by its cut, without the arithmetic.
  lemma RotationCut(body: bytes, rrc: nat, turn: nat)
    requires body != [] && turn == rrc % |body|
    ensures turn < |body| && RotateRight(body, rrc) == body[|body| - turn..] + body[..|body| - turn]
    ensures rrc < |body| ==> turn == rrc
    ensures rrc == |body| ==> turn == 0
  {
    Remainder(rrc, |body|);
  }

  lemma Remainder(n: nat, d: nat)
    requires d > 0
    ensures n % d < d && (n < d ==> n % d == n) && (n == d ==> n % d == 0)
  {
  }

  lemma UnrotateUndoes(body: bytes, rrc: nat)
    requires body != [] && Undone(rrc, |body|)
    ensures Unrotate(RotateRight(body, rrc), rrc) == body
  {
    var turn := rrc % |body|;
    RotationCut(body, rrc, turn);
    hide RotateRight;
    assert turn != 0 ==> rrc == turn;
    var out := RotateRight(body, rrc);
    if turn == 0 {
      assert out == body;
      assert rrc == 0 || rrc >= |body|;
      assert Take(body, rrc) == if rrc == 0 then [] else body;
      assert Drop(body, rrc) == if rrc == 0 then body else [];
    } else {
      assert rrc == turn;
      assert out[turn..] == body[..|body| - turn] && out[..turn] == body[|body| - turn..];
    }
  }

  // The exact condition. A larger count leaves some bodies rotated: Python
  // clamps body[:rrc] to the whole body where RFC 4121 goes around.
  lemma UnrotateIsExact(size: nat, rrc: nat)
    requires size > 0
    ensures (forall body: bytes :: |body| == size ==> Unrotate(RotateRight(body, rrc), rrc) == body)
            <==> Undone(rrc, size)
  {
    hide Unrotate, RotateRight;
    if Undone(rrc, size) {
      forall body: bytes | |body| == size ensures Unrotate(RotateRight(body, rrc), rrc) == body {
        UnrotateUndoes(body, rrc);
      }
    } else {
      var body := LeftRotated(size, rrc);
    }
  }

  lemma LeftRotated(size: nat, rrc: nat) returns (body: bytes)
    requires size > 0 && !Undone(rrc, size)
    ensures body == seq(size, i => if i == 0 then 1 else 0)
    ensures Unrotate(RotateRight(body, rrc), rrc) != body
  {
    body := seq(size, i => if i == 0 then 1 else 0);
    var turn := rrc % size;
    RotationCut(body, rrc, turn);
    assert rrc > size && turn > 0;
    hide RotateRight, Undone;
    var out := RotateRight(body, rrc);
    assert out[turn] == body[0] == 1;
    assert body[turn] == 0;
  }

  // What unpacking reads off a rotated token's header.
  lemma RotatedHeader(flags: byte, ec: nat, n: nat, body: bytes, rrc: nat)
    requires ec < 0x1_0000 && rrc < 0x1_0000 && n < SEQ_LIMIT
    ensures var token := Rotated(WrapHeader(flags, ec, 0, n) + body, rrc);
            && |token| == 16 + |body| && token[..2] == [5, 4] && token[2] == flags
            && UnpackBE(token[4..6]) == ec && UnpackBE(token[6..8]) == rrc && UnpackBE(token[8..16]) == n
            && token[16..] == RotateRight(body, rrc)
  {
    Pow256Values();
    UnpackPackBE(ec, 2);
    UnpackPackBE(rrc, 2);
    UnpackPackBE(n, 8);
    hide Pow256, UnpackBE, PackBE, RotateRight, Rotated, WrapHeader;
    RotatedLayout(flags, ec, n, body, rrc);
  }

  lemma RotatedLayout(flags: byte, ec: nat, n: nat, body: bytes, rrc: nat)
    ensures var token := Rotated(WrapHeader(flags, ec, 0, n) + body, rrc);
            && |token| == 16 + |body| && token[..2] == [5, 4] && token[2] == flags
            && token[4..6] == PackBE(ec, 2) && token[6..8] == PackBE(rrc, 2) && token[8..16] == PackBE(n, 8)
            && token[16..] == RotateRight(body, rrc)
  {
    hide PackBE, RotateRight;
    var h := WrapHeader(flags, ec, 0, n);
    assert h[4..6] == PackBE(ec, 2) && h[8..16] == PackBE(n, 8);
    var plain, token := h + body, Rotated(h + body, rrc);
    assert plain[16..] == body && plain[..6] == h[..6] && plain[8..16] == h[8..16];
    assert token == h[..6] + PackBE(rrc, 2) + h[8..16] + RotateRight(body, rrc);
    assert token[4..6] == h[4..6] && token[6..8] == PackBE(rrc, 2) && token[8..16] == h[8..16];
  }

  // Unpacking a rotated token finds the canonical body.
  lemma UnpackRotated(flags: byte, ec: nat, n: nat, body: bytes, rrc: nat)
    requires ec < 0x1_0000 && rrc < 0x1_0000 && n < SEQ_LIMIT
    requires body != [] && ec <= |body| && Undone(rrc, |body|)
    ensures Unpack(Rotated(WrapHeader(flags, ec, 0, n) + body, rrc))
            == Some(Unpacked(flags, ec, n, rrc, Last(body, ec), ButLast(body, ec)))
  {
    hide PackBE, UnpackBE, RotateRight, Unrotate, Rotated, WrapHeader, Undone, Last, ButLast;
    RotatedHeader(flags, ec, n, body, rrc);
    UnrotateUndoes(body, rrc);
  }

  // Any payload, number and flags, rotated on the wire by any count the code
  // undoes: the payload comes back. The checksum does not notice, since EC and
  // RRC count as zero in it.
  lemma RotatedTokenVerifies(prim: Primitives, key: Key, sealer: Role, flags: byte, payload: bytes, n: nat, rrc: nat)
    requires Sound(prim) && n < SEQ_LIMIT && rrc < 0x1_0000
    requires Undone(rrc, |payload| + prim.macSize(key.enctype))
    ensures var token := BuildUnsealed(prim, key, sealer, flags, payload, n).value;
            && VerifyUnsealed(prim, key, sealer, Rotated(token, rrc)) == Some(payload)
            && Unpack(Rotated(token, rrc)).value.n == n
  {
    hide RotateRight, Unrotate, Rotated, Unpack, WrapHeader, WrapBody, Checksum, Undone, Last, ButLast;
    BodySplits(prim, key, sealer, flags, payload, n);
    UnpackRotated(flags, prim.macSize(key.enctype), n, WrapBody(prim, key, sealer, flags, payload, n), rrc);
  }

  lemma BodySplits(prim: Primitives, key: Key, sealer: Role, flags: byte, payload: bytes, n: nat)
    requires prim.macSize(key.enctype) > 0
    ensures var ec, body := prim.macSize(key.enctype), WrapBody(prim, key, sealer, flags, payload, n);
            && |body| == |payload| + ec && ButLast(body, ec) == payload
            && Last(body, ec) == Checksum(prim, key, sealer, payload + ChecksumHeader(flags, n))
  {
    hide Checksum, ChecksumHeader;
  }

  // Rotated by any count at all, a token verifies to its payload if and only if
  // the code recovers its body.
  lemma RotatedTokenIsExact(prim: Primitives, key: Key, sealer: Role, flags: byte, payload: bytes, n: nat, rrc: nat)
    requires Sound(prim) && n < SEQ_LIMIT && rrc < 0x1_0000
    ensures var token := BuildUnsealed(prim, key, sealer, flags, payload, n).value;
            var body := WrapBody(prim, key, sealer, flags, payload, n);
            VerifyUnsealed(prim, key, sealer, Rotated(token, rrc)) == Some(payload)
            <==> Unrotate(RotateRight(body, rrc), rrc) == body
  {
    var ec, body := prim.macSize(key.enctype), WrapBody(prim, key, sealer, flags, payload, n);
    var found := Unrotate(RotateRight(body, rrc), rrc);
    RotatedHeader(flags, ec, n, body, rrc);
    BodySplits(prim, key, sealer, flags, payload, n);
    assert |found| == |body|;
    hide PackBE, UnpackBE, RotateRight, Unrotate, Rotated, WrapHeader, WrapBody, Checksum;
    assert found == ButLast(found, ec) + Last(found, ec);
    assert body == ButLast(body, ec) + Last(body, ec);
  }

  // A checksum of one marked octet, for tokens that show the failure.
  function Marking(ec: nat, mark: bool): Primitives {
    Primitives(e => ec, (key, sealer, data, i) => if mark && i == 0 then 1 else 0,
               (key, data, i) => 0, (key, checksum, n, i) => 0, (n, i) => 0,
               (role, key, plain, n) => plain, (role, key, wrapped) => Some(wrapped),
               data => [0x60] + data, data => if data == [] then None else Some(data[1..]))
  }

  // For every other count, checksum size and payload size there is a token the
  // code does not read: a marked octet, in the payload or else the checksum,
  // ends up in the wrong place.
  lemma OtherCountsBreakTokens(ec: nat, size: nat, rrc: nat, key: Key, sealer: Role, flags: byte, n: nat)
    requires 0 < ec < 0x1_0000 && rrc < 0x1_0000 && n < SEQ_LIMIT && !Undone(rrc, size + ec)
    ensures var payload: bytes := seq(size, i => if i == 0 then 1 else 0);
            var token := BuildUnsealed(Marking(ec, size == 0), key, sealer, flags, payload, n).value;
            Sound(Marking(ec, size == 0))
            && VerifyUnsealed(Marking(ec, size == 0), key, sealer, Rotated(token, rrc)) != Some(payload)
  {
    hide *;
    var prim := Marking(ec, size == 0);
    MarkingIsSound(ec, size == 0);
    var payload: bytes := seq(size, i => if i == 0 then 1 else 0);
    RotatedTokenIsExact(prim, key, sealer, flags, payload, n, rrc);
    var body := LeftRotated(size + ec, rrc);
    MarkedBody(ec, size, key, sealer, flags, n);
  }

  lemma MarkedBody(ec: nat, size: nat, key: Key, sealer: Role, flags: byte, n: nat)
    requires 0 < ec < 0x1_0000
    ensures var payload: bytes := seq(size, i => if i == 0 then 1 else 0);
            WrapBody(Marking(ec, size == 0), key, sealer, flags, payload, n)
            == seq(size + ec, i => if i == 0 then 1 else 0)
  {
    hide ChecksumHeader;
    var payload: bytes := seq(size, i => if i == 0 then 1 else 0);
    var sum := Checksum(Marking(ec, size == 0), key, sealer, payload + ChecksumHeader(flags, n));
    forall i | 0 <= i < ec ensures sum[i] == if size == 0 && i == 0 then 1 else 0 {
      assert sum[i] == ChecksumOctet(Marking(ec, size == 0), key, sealer, payload + ChecksumHeader(flags, n), i);
    }
  }

  lemma MarkingIsSound(ec: nat, mark: bool)
    requires 0 < ec < 0x1_0000
    ensures Sound(Marking(ec, mark))
  {
    var prim := Marking(ec, mark);
    forall data: bytes ensures EnvelopeInverts(prim, data) {
      assert prim.envelope(data) == [0x60] + data;
      assert ([0x60] + data)[1..] == data;
    }
  }

  lemma TokenVerifies(prim: Primitives, key: Key, sealer: Role, flags: byte, payload: bytes, n: nat)
    requires Sound(prim) && n < SEQ_LIMIT
    ensures var token := BuildUnsealed(prim, key, sealer, flags, payload, n).value;
            && VerifyUnsealed(prim, key, sealer, token) == Some(payload)
            && Unpack(token).Some? && Unpack(token).value.n == n
  {
    RotatedTokenVerifies(prim, key, sealer, flags, payload, n, 0);
    RotatedByZero(flags, prim.macSize(key.enctype), n, WrapBody(prim, key, sealer, flags, payload, n));
    hide WrapHeader, WrapBody, Rotated, VerifyUnsealed, Unpack;
  }

  lemma RotatedByZero(flags: byte, ec: nat, n: nat, body: bytes)
    ensures Rotated(WrapHeader(flags, ec, 0, n) + body, 0) == WrapHeader(flags, ec, 0, n) + body
  {
    var h := WrapHeader(flags, ec, 0, n);
    assert RotateRight(body, 0) == body;
    assert h[6..8] == PackBE(0, 2);
    hide WrapHeader, RotateRight, PackBE;
    assert (h + body)[16..] == body && (h + body)[..6] == h[..6] && (h + body)[8..16] == h[8..16];
    assert h == h[..6] + h[6..8] + h[8..16];
  }

  // Without a checksum there is no payload: Python's body[:-0] is empty and
  // body[-0:] is everything.
  lemma NoChecksumNoPayload(token: bytes)
    requires Unpack(token).Some? && Unpack(token).value.ec == 0
    ensures Unpack(token).value.payload == [] && |Unpack(token).value.checksum| == |token| - 16
  {
    var body, rrc := token[16..], Unpack(token).value.rrc;
    assert |Unrotate(body, rrc)| == |body|;
  }

  // ---- RFC 4757 unsealed tokens ----

  const RC4_SEQ_LIMIT: nat := 0x1_0000_0000

  // TOK_ID 02 01, SGN_ALG 0x11, SEAL_ALG ffff, filler ffff.
  const RC4_HEADER: bytes := [2, 1, 0x11, 0, 0xFF, 0xFF, 0xFF, 0xFF]

  // _rc4_unsealed_wrap_checksum: header, confounder and data together.
  function Rc4Checksum(prim: Primitives, key: bytes, data: bytes): (r: bytes)
    ensures |r| == 8
  {
    seq(8, i requires 0 <= i < 8 => Rc4ChecksumOctet(prim, key, data, i))
  }

  function Rc4ChecksumOctet(prim: Primitives, key: bytes, data: bytes, i: nat): byte {
    prim.rc4Checksum(key, data, i)
  }

  function Confounder(prim: Primitives, n: nat): (r: bytes)
    ensures |r| == 8
  {
    seq(8, i requires 0 <= i < 8 => ConfounderOctet(prim, n, i))
  }

  function ConfounderOctet(prim: Primitives, n: nat, i: nat): byte { prim.confounder(n, i) }

  function SndSeq(prim: Primitives, key: bytes, checksum: bytes, n: nat): (r: bytes)
    ensures |r| == 8
  {
    seq(8, i requires 0 <= i < 8 => SndSeqOctet(prim, key, checksum, n, i))
  }

  function SndSeqOctet(prim: Primitives, key: bytes, checksum: bytes, n: nat, i: nat): byte {
    prim.sndSeq(key, checksum, n, i)
  }

  // A token over some data, marker included; the 32-octet structure first.
  function Rc4Token(prim: Primitives, key: Key, data: bytes, n: nat): bytes {
    var conf := Confounder(prim, n);
    var checksum := Rc4Checksum(prim, key.contents, RC4_HEADER + conf + data);
    RC4_HEADER + SndSeq(prim, key.contents, checksum, n) + checksum + conf + data
  }

  // build_rc4_unsealed_wrap_token
  function BuildRc4(prim: Primitives, key: Key, payload: bytes, n: nat): Option<bytes> {
    if n >= RC4_SEQ_LIMIT then None else Some(Rc4Token(prim, key, payload + [1], n))
  }

  // verify_rc4_unsealed_wrap_token
  function VerifyRc4(prim: Primitives, key: Key, token: bytes): Option<bytes> {
    if |token| < 32 || token[..2] != [2, 1] then None
    else
      var data := token[32..];
      if Rc4Checksum(prim, key.contents, token[..8] + token[24..32] + data) != token[16..24] then None
      else if data != [] && data[|data| - 1] == 1 then Some(ButLast(data, 1))
      else Some(data)
  }

  lemma Rc4TokenVerifies(prim: Primitives, key: Key, data: bytes, n: nat)
    ensures VerifyRc4(prim, key, Rc4Token(prim, key, data, n))
            == Some(if data != [] && data[|data| - 1] == 1 then ButLast(data, 1) else data)
  {
    var conf := Confounder(prim, n);
    var checksum := Rc4Checksum(prim, key.contents, RC4_HEADER + conf + data);
    var t := Rc4Token(prim, key, data, n);
    assert t == RC4_HEADER + (SndSeq(prim, key.contents, checksum, n) + checksum + conf + data);
    assert t[..8] == RC4_HEADER && t[..2] == [2, 1];
    assert t[16..24] == checksum && t[24..32] == conf && t[32..] == data;
  }

  // A built token always gives its payload back, even one that itself ends in
  // the marker octet.
  lemma BuiltRc4Verifies(prim: Primitives, key: Key, payload: bytes, n: nat)
    requires n < RC4_SEQ_LIMIT
    ensures VerifyRc4(prim, key, BuildRc4(prim, key, payload, n).value) == Some(payload)
  {
    Rc4TokenVerifies(prim, key, payload + [1], n);
    assert ButLast(payload + [1], 1) == payload;
  }

  // A peer that adds no marker is read right if and only if its data does not
  // end in one.
  lemma UnmarkedDataIsExact(prim: Primitives, key: Key, data: bytes, n: nat)
    ensures VerifyRc4(prim, key, Rc4Token(prim, key, data, n)) == Some(data)
            <==> !(data != [] && data[|data| - 1] == 1)
  {
    Rc4TokenVerifies(prim, key, data, n);
  }

  // ---- the strategy ----

  // KerberosLayerStrategy; the client is the Initiator.
  datatype State = State(role: Role, key: Key, wireSeal: bool, sendSeq: nat) {
    function IsRc4(): bool { key.enctype == RC4_HMAC }
  }

  // One message under a given number.
  function SealMessage(prim: Primitives, s: State, plain: bytes): Option<bytes> {
    if s.wireSeal then Some(prim.sealWrap(s.role, s.key, plain, s.sendSeq))
    else if s.IsRc4() then
      var token := BuildRc4(prim, s.key, plain, s.sendSeq);
      if token == None then None else Some(prim.envelope(token.value))
    else BuildUnsealed(prim, s.key, s.role, 4, plain, s.sendSeq)
  }

  function Wrap(prim: Primitives, s: State, plain: bytes): (Option<bytes>, State) {
    var wire := SealMessage(prim, s, plain);
    (wire, if wire.Some? then s.(sendSeq := s.sendSeq + 1) else s)
  }

  function Open(prim: Primitives, s: State, wrapped: bytes): Option<bytes> {
    if s.wireSeal then prim.sealUnwrap(s.role, s.key, wrapped)
    else if s.IsRc4() then
      if Take(wrapped, 1) == [0x60] then
        var inner := prim.parseEnvelope(wrapped);
        if inner == None then None else VerifyRc4(prim, s.key, inner.value)
      else VerifyRc4(prim, s.key, wrapped)
    else VerifyUnsealed(prim, s.key, s.role.Peer(), wrapped)
  }

  function Unwrap(prim: Primitives, s: State, wrapped: bytes): (Option<bytes>, State) {
    (Open(prim, s, wrapped), s)
  }

  class KerberosLayerStrategy {
    const prim: Primitives
    const key: Key
    const wireSeal: bool
    var sendSeq: nat

    ghost function Abstract(): State
      reads this
    {
      State(Initiator, key, wireSeal, sendSeq)
    }

    // build_kerberos_layer_strategy
    constructor (prim: Primitives, key: Key, wireSeal: bool, startSeq: nat)
      ensures this.prim == prim && Abstract() == State(Initiator, key, wireSeal, startSeq)
    {
      this.prim, this.key, this.wireSeal, sendSeq := prim, key, wireSeal, startSeq;
    }

    method WrapMessage(plaintext: bytes) returns (wire: Option<bytes>)
      modifies this
      ensures (wire, Abstract()) == Wrap(prim, old(Abstract()), plaintext)
    {
      if wireSeal {
        wire := Some(prim.sealWrap(Initiator, key, plaintext, sendSeq));
      } else if key.enctype == RC4_HMAC {
        wire := BuildRc4(prim, key, plaintext, sendSeq);
        if wire == None {
          return;
        }
        wire := Some(prim.envelope(wire.value));
      } else {
        wire := BuildUnsealed(prim, key, Initiator, 4, plaintext, sendSeq);
        if wire == None {
          return;
        }
      }
      sendSeq := sendSeq + 1;
    }

    method UnwrapMessage(wrapped: bytes) returns (plain: Option<bytes>)
      ensures (plain, Abstract()) == Unwrap(prim, Abstract(), wrapped)
    {
      plain := Open(prim, State(Initiator, key, wireSeal, sendSeq), wrapped);
    }
  }

  function KrbLayer(prim: Primitives): Layer<State> {
    Layer((s: State, p: bytes) => Wrap(prim, s, p), (s: State, w: bytes) => Unwrap(prim, s, w))
  }

  // Opening a token needs the key, the format and the other role; no number.
  function KrbContract(prim: Primitives): Contract<State, State> {
    Contract(
      (s: State) => true,
      (s: State) => s,
      (v: State, p: bytes) => Wrap(prim, v, p),
      (r: State, v: State) => r.key == v.key && r.wireSeal == v.wireSeal && r.role == v.role.Peer(),
      (r: State, v: State, wire: bytes) => true)
  }

  lemma OpenUndoesSeal(prim: Primitives, r: State, v: State, plain: bytes)
    requires Sound(prim) && r.key == v.key && r.wireSeal == v.wireSeal && r.role == v.role.Peer()
    requires SealMessage(prim, v, plain).Some?
    ensures Open(prim, r, SealMessage(prim, v, plain).value) == Some(plain)
  {
    hide VerifyUnsealed, VerifyRc4, Rc4Token, WrapHeader, WrapBody, Unpack;
    if v.wireSeal {
      assert SealInverts(prim, v.role, v.key, plain, v.sendSeq);
    } else if v.IsRc4() {
      BuiltRc4Verifies(prim, v.key, plain, v.sendSeq);
      assert EnvelopeInverts(prim, BuildRc4(prim, v.key, plain, v.sendSeq).value);
    } else {
      TokenVerifies(prim, v.key, v.role, 4, plain, v.sendSeq);
    }
  }

  lemma KrbConforms(prim: Primitives)
    requires Sound(prim)
    ensures Conforms(KrbLayer(prim), KrbContract(prim))
  {
    var l, c := KrbLayer(prim), KrbContract(prim);
    forall s: State, p: bytes ensures WrapAdvances(l, c, s, p) && WrapKeepsInbound(l, c, s, p) {
      assert l.wrap(s, p) == Wrap(prim, s, p);
    }
    forall r: State, wire: bytes ensures UnwrapKeepsOutbound(l, c, r, wire) {
      assert l.unwrap(r, wire) == Unwrap(prim, r, wire);
    }
    forall r: State, v: State, p: bytes ensures UnwrapReturns(l, c, r, v, p) {
      var (wire, v') := c.seal(v, p);
      if wire.Some? && c.accepts(r, v) {
        OpenUndoesSeal(prim, r, v, p);
      }
    }
  }

  // For every key type and layer, and every interleaving both ways, what
  // arrives is what was sent.
  lemma KrbSessionIsFaithful(prim: Primitives, key: Key, wireSeal: bool, startSeq: nat, peerSeq: nat, acts: seq<Action>)
    requires Sound(prim)
    ensures var a, b := State(Initiator, key, wireSeal, startSeq), State(Acceptor, key, wireSeal, peerSeq);
            var w := Run(KrbLayer(prim), KrbContract(prim), Opened(a, b), acts);
            && w.ab.got <= w.ab.sent && w.ba.got <= w.ba.sent
            && (w.ab.flight == [] ==> w.ab.got == w.ab.sent)
            && (w.ba.flight == [] ==> w.ba.got == w.ba.sent)
  {
    var l, c := KrbLayer(prim), KrbContract(prim);
    var a, b := State(Initiator, key, wireSeal, startSeq), State(Acceptor, key, wireSeal, peerSeq);
    KrbConforms(prim);
    EverythingFits(l, c, Opened(a, b), acts);
    SessionIsFaithful(l, c, a, b, acts);
  }
}

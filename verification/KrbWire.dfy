// What Kerberos traffic looks like from outside: every token octet by octet, the
// number each message goes out under, and which tokens are refused.

module KrbWire {
  import opened Bytes
  import opened KrbTokens

  lemma ChecksumAt(prim: Primitives, key: Key, sealer: Role, data: bytes, i: nat)
    requires i < prim.macSize(key.enctype)
    ensures Checksum(prim, key, sealer, data)[i] == prim.checksum(key, sealer, data, i)
  {
    assert Checksum(prim, key, sealer, data)[i] == ChecksumOctet(prim, key, sealer, data, i);
  }

  // The three eight-octet fields of an RFC 4757 token.
  lemma Rc4FieldsAt(prim: Primitives, key: bytes, data: bytes, n: nat, i: nat)
    requires i < 8
    ensures Rc4Checksum(prim, key, data)[i] == prim.rc4Checksum(key, data, i)
    ensures SndSeq(prim, key, data, n)[i] == prim.sndSeq(key, data, n, i)
    ensures Confounder(prim, n)[i] == prim.confounder(n, i)
  {
    assert Rc4Checksum(prim, key, data)[i] == Rc4ChecksumOctet(prim, key, data, i);
    assert SndSeq(prim, key, data, n)[i] == SndSeqOctet(prim, key, data, n, i);
    assert Confounder(prim, n)[i] == ConfounderOctet(prim, n, i);
  }

  // An RFC 4121 Wrap token that is not sealed: flags, EC and number in the
  // header, and a checksum over payload and header with EC and RRC as zero.
  function CfxToken(prim: Primitives, key: Key, sealer: Role, flags: byte, payload: bytes, n: nat): bytes {
    [5, 4, flags, 0xFF] + PackBE(prim.macSize(key.enctype), 2) + [0, 0] + PackBE(n, 8)
    + payload
    + Checksum(prim, key, sealer, payload + ([5, 4, flags, 0xFF, 0, 0, 0, 0] + PackBE(n, 8)))
  }

  // An RFC 4757 token that is not sealed, marker octet included.
  function ArcfourToken(prim: Primitives, key: Key, payload: bytes, n: nat): bytes {
    var header := [2, 1, 0x11, 0, 0xFF, 0xFF, 0xFF, 0xFF];
    var conf := Confounder(prim, n);
    var sum := Rc4Checksum(prim, key.contents, header + conf + (payload + [1]));
    header + SndSeq(prim, key.contents, sum, n) + sum + conf + (payload + [1])
  }

  // A message under a number: sealed by the library, or one of the two unsealed
  // tokens, the RFC 4757 one in its envelope.
  function TokenUnder(prim: Primitives, role: Role, key: Key, sealed: bool, n: nat, p: bytes): bytes {
    if sealed then prim.sealWrap(role, key, p, n)
    else if key.enctype == 23 then prim.envelope(ArcfourToken(prim, key, p, n))
    else CfxToken(prim, key, role, 4, p, n)
  }

  lemma HeaderOctets(flags: byte, ec: nat, n: nat)
    ensures WrapHeader(flags, ec, 0, n) == [5, 4, flags, 0xFF] + PackBE(ec, 2) + [0, 0] + PackBE(n, 8)
    ensures ChecksumHeader(flags, n) == [5, 4, flags, 0xFF, 0, 0, 0, 0] + PackBE(n, 8)
  {
    assert PackBE(0, 2) == [0, 0] by {
      assert PackBE(0, 1) == [0];
    }
  }

  lemma CfxIsBuilt(prim: Primitives, key: Key, sealer: Role, flags: byte, payload: bytes, n: nat)
    ensures BuildUnsealed(prim, key, sealer, flags, payload, n)
            == if n < 0x1_0000_0000_0000_0000 then Some(CfxToken(prim, key, sealer, flags, payload, n)) else None
  {
    HeaderOctets(flags, prim.macSize(key.enctype), n);
    hide Checksum, PackBE, WrapHeader, ChecksumHeader;
    var h, sum := WrapHeader(flags, prim.macSize(key.enctype), 0, n),
                  Checksum(prim, key, sealer, payload + ChecksumHeader(flags, n));
    assert h + (payload + sum) == h + payload + sum;
  }

  lemma ArcfourIsBuilt(prim: Primitives, key: Key, payload: bytes, n: nat)
    ensures BuildRc4(prim, key, payload, n)
            == if n < 0x1_0000_0000 then Some(ArcfourToken(prim, key, payload, n)) else None
  {
    hide Rc4Checksum, SndSeq, Confounder;
  }

  // Whether a number fits the token's format.
  predicate NumberFits(key: Key, sealed: bool, n: nat) {
    sealed || n < if key.enctype == 23 then 0x1_0000_0000 else 0x1_0000_0000_0000_0000
  }

  lemma SealedUnder(prim: Primitives, s: State, p: bytes)
    ensures SealMessage(prim, s, p)
            == if NumberFits(s.key, s.wireSeal, s.sendSeq)
               then Some(TokenUnder(prim, s.role, s.key, s.wireSeal, s.sendSeq, p)) else None
    ensures Wrap(prim, s, p).1
            == s.(sendSeq := s.sendSeq + if NumberFits(s.key, s.wireSeal, s.sendSeq) then 1 else 0)
  {
    CfxIsBuilt(prim, s.key, s.role, 4, p, s.sendSeq);
    ArcfourIsBuilt(prim, s.key, p, s.sendSeq);
    hide CfxToken, ArcfourToken, BuildUnsealed, BuildRc4;
  }

  // ---- numbering ----

  // The tokens of consecutive wraps, up to one that raises.
  function WrapAll(prim: Primitives, s: State, msgs: seq<bytes>): seq<bytes>
    decreases |msgs|
  {
    if msgs == [] || SealMessage(prim, s, msgs[0]) == None then []
    else [SealMessage(prim, s, msgs[0]).value] + WrapAll(prim, Wrap(prim, s, msgs[0]).1, msgs[1..])
  }

  // Traffic carries start, start + 1, start + 2, ...: the k-th token is the k-th
  // message under start + k, and messages go out for as long as numbers fit.
  lemma {:induction false} TrafficIsNumberedWithoutGaps(prim: Primitives, s: State, msgs: seq<bytes>, k: nat)
    requires k < |msgs| && NumberFits(s.key, s.wireSeal, s.sendSeq + k)
    ensures k < |WrapAll(prim, s, msgs)|
    ensures WrapAll(prim, s, msgs)[k] == TokenUnder(prim, s.role, s.key, s.wireSeal, s.sendSeq + k, msgs[k])
    decreases |msgs|
  {
    hide SealMessage, TokenUnder;
    SealedUnder(prim, s, msgs[0]);
    if k > 0 {
      TrafficIsNumberedWithoutGaps(prim, Wrap(prim, s, msgs[0]).1, msgs[1..], k - 1);
    }
  }

  lemma {:induction false} NothingPastTheLastNumber(prim: Primitives, s: State, msgs: seq<bytes>)
    requires WrapAll(prim, s, msgs) != []
    ensures |WrapAll(prim, s, msgs)| <= |msgs|
    ensures NumberFits(s.key, s.wireSeal, s.sendSeq + |WrapAll(prim, s, msgs)| - 1)
    decreases |msgs|
  {
    hide SealMessage, TokenUnder;
    SealedUnder(prim, s, msgs[0]);
    var more := WrapAll(prim, Wrap(prim, s, msgs[0]).1, msgs[1..]);
    if more != [] {
      NothingPastTheLastNumber(prim, Wrap(prim, s, msgs[0]).1, msgs[1..]);
    }
  }

  // An RFC 4121 token shows its number to whoever unpacks it.
  lemma TokenShowsNumber(prim: Primitives, role: Role, key: Key, n: nat, p: bytes)
    requires Sound(prim) && key.enctype != 23 && n < 0x1_0000_0000_0000_0000
    ensures var u := Unpack(TokenUnder(prim, role, key, false, n, p)); u.Some? && u.value.n == n
  {
    CfxIsBuilt(prim, key, role, 4, p, n);
    TokenVerifies(prim, key, role, 4, p, n);
  }

  // ---- refusal ----

  // A token of any payload and any checksum, laid out as the sender would: it
  // verifies, to that payload, if and only if the checksum is the keyed one of
  // this payload, these flags and this number.
  lemma CfxIsJudgedByItsChecksum(prim: Primitives, key: Key, sealer: Role, flags: byte, n: nat,
                                 payload: bytes, sum: bytes)
    requires 0 < |sum| < 0x1_0000 && n < 0x1_0000_0000_0000_0000
    ensures var token := [5, 4, flags, 0xFF] + PackBE(|sum|, 2) + [0, 0] + PackBE(n, 8) + payload + sum;
            var data := payload + ([5, 4, flags, 0xFF, 0, 0, 0, 0] + PackBE(n, 8));
            VerifyUnsealed(prim, key, sealer, token)
            == if sum == Checksum(prim, key, sealer, data) then Some(payload) else None
  {
    var body := payload + sum;
    hide PackBE, UnpackBE, Unpack, Rotated, Checksum, WrapHeader, ChecksumHeader, Last, ButLast;
    HeaderOctets(flags, |sum|, n);
    var header := [5, 4, flags, 0xFF] + PackBE(|sum|, 2) + [0, 0] + PackBE(n, 8);
    assert header + payload + sum == header + body;
    RotatedByZero(flags, |sum|, n, body);
    UnpackRotated(flags, |sum|, n, body, 0);
    BodyParts(payload, sum);
  }

  lemma BodyParts(payload: bytes, sum: bytes)
    requires sum != []
    ensures Last(payload + sum, |sum|) == sum && ButLast(payload + sum, |sum|) == payload
  {
  }

  // So is an RFC 4757 token, whatever its algorithm and number fields hold; a
  // trailing marker octet is dropped.
  lemma ArcfourIsJudgedByItsChecksum(prim: Primitives, key: Key, header: bytes, sndSeq: bytes, sum: bytes,
                                     conf: bytes, data: bytes)
    requires |header| == |sndSeq| == |sum| == |conf| == 8 && header[..2] == [2, 1]
    ensures VerifyRc4(prim, key, header + sndSeq + sum + conf + data)
            == if sum != Rc4Checksum(prim, key.contents, header + conf + data) then None
               else if data != [] && data[|data| - 1] == 1 then Some(data[..|data| - 1])
               else Some(data)
  {
    var t := header + sndSeq + sum + conf + data;
    assert t == header + (sndSeq + sum + conf + data);
    assert t[..8] == header && t[..2] == [2, 1] && t[16..24] == sum && t[24..32] == conf && t[32..] == data;
    hide Rc4Checksum;
  }

  // Anything too short or of another kind is refused.
  lemma OtherTokensAreRefused(prim: Primitives, key: Key, sealer: Role, token: bytes)
    ensures |token| < 16 || token[..2] != [5, 4] ==> VerifyUnsealed(prim, key, sealer, token) == None
    ensures |token| >= 16 && |token| - 16 < 256 * (token[4] as int) + token[5] as int ==>
              VerifyUnsealed(prim, key, sealer, token) == None
    ensures |token| < 32 || token[..2] != [2, 1] ==> VerifyRc4(prim, key, token) == None
  {
    if |token| >= 16 {
      var ec := token[4..6];
      assert UnpackBE(ec[..1]) == ec[0] by {
        assert UnpackBE(ec[..1][..0]) == 0;
      }
      assert UnpackBE(ec) == 256 * UnpackBE(ec[..1]) + ec[1];
    }
  }

  // ---- what the strategy lets in ----

  // RFC 4757 traffic is read bare as well as in its envelope; anything that
  // opens like an envelope has to be one.
  lemma ArcfourFraming(prim: Primitives, s: State, p: bytes, n: nat, wrapped: bytes)
    requires !s.wireSeal && s.key.enctype == 23 && n < 0x1_0000_0000
    ensures Open(prim, s, ArcfourToken(prim, s.key, p, n)) == Some(p)
    ensures wrapped != [] && wrapped[0] == 0x60 && prim.parseEnvelope(wrapped) == None ==>
              Open(prim, s, wrapped) == None
    ensures wrapped != [] && wrapped[0] == 0x60 && prim.parseEnvelope(wrapped).Some? ==>
              Open(prim, s, wrapped) == VerifyRc4(prim, s.key, prim.parseEnvelope(wrapped).value)
  {
    ArcfourIsBuilt(prim, s.key, p, n);
    BuiltRc4Verifies(prim, s.key, p, n);
    var token := ArcfourToken(prim, s.key, p, n);
    hide VerifyRc4, BuildRc4, Rc4Checksum, SndSeq, Confounder;
    assert token[0] == 2;
  }

  // An altered message does not get in: of the unsealed RFC 4121 tokens a peer
  // could lay out, those with a checksum that is not the peer's raise.
  lemma AlteredTokenRaises(prim: Primitives, s: State, flags: byte, n: nat, payload: bytes, sum: bytes)
    requires !s.wireSeal && s.key.enctype != 23 && 0 < |sum| < 0x1_0000 && n < 0x1_0000_0000_0000_0000
    ensures var token := [5, 4, flags, 0xFF] + PackBE(|sum|, 2) + [0, 0] + PackBE(n, 8) + payload + sum;
            var data := payload + ([5, 4, flags, 0xFF, 0, 0, 0, 0] + PackBE(n, 8));
            var peer := if s.role == Initiator then Acceptor else Initiator;
            Unwrap(prim, s, token)
            == (if sum == Checksum(prim, s.key, peer, data) then Some(payload) else None, s)
  {
    CfxIsJudgedByItsChecksum(prim, s.key, s.role.Peer(), flags, n, payload, sum);
    hide VerifyUnsealed, Checksum, PackBE;
  }
}

// The BER header of an LDAPMessage (RFC 4511, section 4.1.1), as the stream
// reader sizes it and as the NTLM layer recognises it.

module Ber {
  import opened Bytes

  const SEQUENCE: byte := 0x30
  const INTEGER: byte := 0x02

  // LDAPTransport._ber_message_length: header plus body of the message at the
  // head of buf; None while buf is too short to tell, or starts no message.
  function MessageLength(buf: bytes): Option<nat> {
    if |buf| < 2 || buf[0] != SEQUENCE then None
    else
      var n := buf[1];
      if n < 0x80 then Some(2 + n)
      else
        var count := n - 0x80;
        if count == 0 || count > 4 || |buf| < 2 + count then None
        else Some(2 + count + UnpackBE(buf[2..2 + count]))
  }

  // _looks_like_cleartext_ldap: the detector that decides once per connection
  // whether the peer seals its bodies.
  function LooksLikeCleartext(payload: bytes): bool {
    if |payload| < 2 || payload[0] != SEQUENCE then false
    else
      var n := payload[1];
      if n < 0x80 then StartsWithMessageId(payload, 2, n)
      else
        var count := n - 0x80;
        if count == 0 || count > 4 || |payload| < 2 + count then false
        else StartsWithMessageId(payload, 2 + count, UnpackBE(payload[2..2 + count]))
  }

  // The part of the detector shared by both length forms: the body fits, and
  // its first element is an INTEGER of one to five octets inside that body.
  function StartsWithMessageId(payload: bytes, total: nat, bodyLen: nat): bool {
    total + bodyLen <= |payload|
    && total + 2 <= |payload| && payload[total] == INTEGER
    && 1 <= payload[total + 1] <= 5 && 2 + payload[total + 1] <= bodyLen
  }

  // ---- the encoder the two functions above are measured against ----

  // An LDAPMessage as it can be laid out in BER with definite lengths:
  // lengthOctets is 0 for the short form, 1..4 for the long form (minimal or
  // not); id holds the contents octets of messageID; tail everything after it.
  datatype LdapMessage = LdapMessage(lengthOctets: nat, id: bytes, tail: bytes) {
    function BodyLength(): nat { 2 + |id| + |tail| }

    predicate Encodable() {
      && lengthOctets <= 4
      && (if lengthOctets == 0 then BodyLength() < 0x80 else BodyLength() < Pow256(lengthOctets))
      && 1 <= |id| <= 5
    }

    function Header(): bytes
      requires Encodable()
    {
      if lengthOctets == 0 then [0x30, BodyLength()]
      else [0x30, 0x80 + lengthOctets] + PackBE(BodyLength(), lengthOctets)
    }

    function Encode(): bytes
      requires Encodable()
    {
      Header() + [0x02, |id|] + id + tail
    }
  }

  // Contents octets of the BER INTEGER n: big-endian, shortest with a clear
  // sign bit.
  function IdOctets(n: nat): bytes {
    PackBE(n, IdWidth(n))
  }

  function IdWidth(n: nat): nat {
    if n < 0x80 then 1 else 1 + IdWidth(n / 256)
  }

  // Every messageID RFC 4511 allows, 0..maxInt, takes one to four octets and
  // reads back as itself.
  lemma MessageIdFits(n: nat)
    requires n <= 0x7FFF_FFFF
    ensures 1 <= |IdOctets(n)| <= 4 && UnpackBE(IdOctets(n)) == n
  {
    Pow256Values();
    assert IdWidth(n) <= 4 && n < Pow256(IdWidth(n)) by {
      assert IdWidth(n / 256 / 256 / 256) == 1;
      assert IdWidth(n / 256 / 256) <= 2;
      assert IdWidth(n / 256) <= 3;
      IdWidthBound(n);
    }
    UnpackPackBE(n, IdWidth(n));
  }

  lemma {:induction false} IdWidthBound(n: nat)
    ensures n < Pow256(IdWidth(n))
  {
    if n >= 0x80 {
      IdWidthBound(n / 256);
    }
  }

  // ---- the framer ----

  // A size, once given, is the same for every longer buffer.
  lemma SizeIsStable(buf: bytes, more: bytes)
    requires MessageLength(buf).Some?
    ensures MessageLength(buf + more) == MessageLength(buf)
  {
    var n := buf[1];
    if n >= 0x80 {
      var count := n - 0x80;
      assert (buf + more)[2..2 + count] == buf[2..2 + count];
    }
  }

  // No extension of buf starts a message the framer can size.
  predicate NeverSized(buf: bytes) {
    || (|buf| >= 1 && buf[0] != SEQUENCE)
    || (|buf| >= 2 && (buf[1] == 0x80 || buf[1] > 0x84))
  }

  // The exact condition: an unsized buffer can still become a message if and
  // only if its first two octets do not already rule it out.
  lemma UnsizedCanStillBecomeSized(buf: bytes)
    requires MessageLength(buf) == None
    ensures (exists more :: MessageLength(buf + more).Some?) <==> !NeverSized(buf)
  {
    if NeverSized(buf) {
      forall more ensures MessageLength(buf + more) == None {
        assert (buf + more)[0] == buf[0];
        assert |buf| >= 2 ==> (buf + more)[1] == buf[1];
      }
    } else {
      var more := (if |buf| == 0 then [SEQUENCE, 0] else if |buf| == 1 then [0] else [0, 0, 0, 0]);
      assert |buf| >= 2 ==> (buf + more)[1] == buf[1];
      assert MessageLength(buf + more).Some?;
    }
  }

  // Six octets always settle it. This is the guard under which the reader
  // raises, so it raises only on streams that can never become valid.
  lemma SixOctetsSettle(buf: bytes, more: bytes)
    requires |buf| >= 6 && MessageLength(buf) == None
    ensures NeverSized(buf) && MessageLength(buf + more) == None
  {
    assert (buf + more)[0] == buf[0] && (buf + more)[1] == buf[1];
  }

  lemma HeaderLayout(m: LdapMessage)
    requires m.Encodable()
    ensures var h := m.Header();
            && |h| == 2 + m.lengthOctets && h[0] == SEQUENCE
            && h[1] == (if m.lengthOctets == 0 then m.BodyLength() else 0x80 + m.lengthOctets)
            && (m.lengthOctets > 0 ==> UnpackBE(h[2..]) == m.BodyLength())
  {
    if m.lengthOctets > 0 {
      UnpackPackBE(m.BodyLength(), m.lengthOctets);
      assert m.Header()[2..] == PackBE(m.BodyLength(), m.lengthOctets);
    }
  }

  // Where everything lands in an encoded message with something behind it.
  lemma EncodeLayout(m: LdapMessage, rest: bytes)
    requires m.Encodable()
    ensures var p, k := m.Encode() + rest, m.lengthOctets;
            && |m.Encode()| == 2 + k + m.BodyLength()
            && p[0] == SEQUENCE && p[1] == (if k == 0 then m.BodyLength() else 0x80 + k)
            && (k > 0 ==> UnpackBE(p[2..2 + k]) == m.BodyLength())
            && p[2 + k] == INTEGER && p[3 + k] == |m.id|
  {
    HeaderLayout(m);
    hide UnpackBE, PackBE, LdapMessage.Header;
    var p, h := m.Encode() + rest, m.Header();
    assert p == h + ([INTEGER, |m.id|] + m.id + m.tail + rest);
    assert p[2..|h|] == h[2..];
  }

  // The framer cuts an encoded message off exactly, whatever follows it.
  lemma FramerInvertsEncode(m: LdapMessage, rest: bytes)
    requires m.Encodable()
    ensures MessageLength(m.Encode() + rest) == Some(|m.Encode()|)
  {
    EncodeLayout(m, rest);
    hide LdapMessage.Encode, UnpackBE;
    assert MessageLength(m.Encode() + rest) == Some(|m.Encode()|);
  }

  // ---- the detector ----

  lemma EncodedIsDetected(m: LdapMessage, rest: bytes)
    requires m.Encodable()
    ensures LooksLikeCleartext(m.Encode() + rest)
  {
    EncodeLayout(m, rest);
    hide LdapMessage.Encode, UnpackBE;
    assert LooksLikeCleartext(m.Encode() + rest);
  }

  // The message a detected payload starts with.
  function HeadMessage(payload: bytes): LdapMessage
    requires LooksLikeCleartext(payload)
  {
    var octets := if payload[1] < 0x80 then 0 else payload[1] - 0x80;
    var total := 2 + octets;
    var size := MessageLength(payload).value;
    var idEnd := total + 2 + payload[total + 1];
    LdapMessage(octets, payload[total + 2..idEnd], payload[idEnd..size])
  }

  lemma HeadMessageFits(payload: bytes)
    requires LooksLikeCleartext(payload)
    ensures var m, size := HeadMessage(payload), MessageLength(payload);
            && m.Encodable() && size == Some(2 + m.lengthOctets + m.BodyLength()) && size.value <= |payload|
  {
    var k := HeadMessage(payload).lengthOctets;
    if k > 0 {
      PackUnpackBE(payload[2..2 + k]);
    }
  }

  lemma HeadMessageHeader(payload: bytes)
    requires LooksLikeCleartext(payload)
    ensures HeadMessage(payload).Encodable()
    ensures HeadMessage(payload).Header() == payload[..2 + HeadMessage(payload).lengthOctets]
  {
    HeadMessageFits(payload);
    var k := HeadMessage(payload).lengthOctets;
    if k > 0 {
      PackUnpackBE(payload[2..2 + k]);
      assert payload[..2 + k] == payload[..2] + payload[2..2 + k];
    }
  }

  lemma FourParts(s: bytes, i: nat, j: nat, k: nat, n: nat)
    requires i <= j <= k <= n <= |s|
    ensures s[..n] == s[..i] + s[i..j] + s[j..k] + s[k..n]
  {
    assert s[..j] == s[..i] + s[i..j];
    assert s[..k] == s[..j] + s[j..k];
  }

  // What the detector accepts, the framer sizes inside the same payload, and
  // the octets it cuts off are an encoded LDAPMessage.
  lemma DetectedIsEncoded(payload: bytes)
    requires LooksLikeCleartext(payload)
    ensures MessageLength(payload).Some? && MessageLength(payload).value <= |payload|
    ensures HeadMessage(payload).Encodable()
    ensures HeadMessage(payload).Encode() == payload[..MessageLength(payload).value]
  {
    HeadMessageFits(payload);
    HeadMessageHeader(payload);
    var m := HeadMessage(payload);
    var total, size := 2 + m.lengthOctets, MessageLength(payload).value;
    hide UnpackBE, PackBE, MessageLength, LdapMessage.Header;
    var idEnd := total + 2 + |m.id|;
    assert payload[total..total + 2] == [INTEGER, |m.id|];
    FourParts(payload, total, total + 2, idEnd, size);
  }

  // The detector accepts exactly the payloads that open with a BER
  // LDAPMessage: alone or bundled, and nothing else.
  lemma DetectorIsExact(payload: bytes)
    ensures LooksLikeCleartext(payload)
            <==> exists m: LdapMessage, rest: bytes :: m.Encodable() && payload == m.Encode() + rest
  {
    if LooksLikeCleartext(payload) {
      DetectedIsEncoded(payload);
      var size := MessageLength(payload).value;
      assert payload == HeadMessage(payload).Encode() + payload[size..];
    }
    forall m: LdapMessage, rest: bytes | m.Encodable() && payload == m.Encode() + rest
      ensures LooksLikeCleartext(payload)
    {
      EncodedIsDetected(m, rest);
    }
  }
}

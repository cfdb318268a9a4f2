// The DER walk that finds a SPNEGO responseToken (RFC 4178, section 4.2.2) in
// the octets a server puts in serverSaslCreds, and the encoder it inverts.

module Der {
  import opened Bytes
  import opened Ber

  // Tag, value, and the index just past the element.
  datatype Tlv = Tlv(tag: byte, value: bytes, next: nat)

  // _der_tlv: one element at buf[i:], or None where it is truncated or its
  // length is indefinite. A success takes two octets at least and stays inside.
  function DerTlv(buf: bytes, i: nat): (r: Option<Tlv>)
    ensures r.Some? ==> i + 2 <= r.value.next <= |buf| && |r.value.value| <= r.value.next - i - 2
  {
    if i + 2 > |buf| then None
    else
      var first := buf[i + 1];
      if first < 0x80 then Slice(buf, buf[i], i + 2, first)
      else
        var n := first - 0x80;
        if n == 0 || i + 2 + n > |buf| then None
        else Slice(buf, buf[i], i + 2 + n, UnpackBE(buf[i + 2..i + 2 + n]))
  }

  function Slice(buf: bytes, tag: byte, start: nat, length: nat): (r: Option<Tlv>)
    ensures r.Some? ==> r.value.next == start + length <= |buf| && |r.value.value| == length
  {
    if start + length > |buf| then None
    else Some(Tlv(tag, buf[start..start + length], start + length))
  }

  const NEG_TOKEN_RESP: byte := 0xA1
  const RESPONSE_TOKEN: byte := 0xA2
  const OCTET_STRING: byte := 0x04

  // The walk over the fields of the SEQUENCE, from index i.
  function WalkFields(body: bytes, i: nat): Option<bytes>
    decreases |body| - i
  {
    if i >= |body| then None
    else
      var field := DerTlv(body, i);
      if field == None then None
      else if field.value.tag == RESPONSE_TOKEN then OctetsOf(field.value.value)
      else WalkFields(body, field.value.next)
  }

  function OctetsOf(value: bytes): Option<bytes> {
    var octets := DerTlv(value, 0);
    if octets == None || octets.value.tag != OCTET_STRING || octets.value.value == [] then None
    else Some(octets.value.value)
  }

  // What _spnego_response_token returns.
  function TokenOf(raw: bytes): Option<bytes> {
    var outer := DerTlv(raw, 0);
    if outer == None || outer.value.tag != NEG_TOKEN_RESP then None
    else
      var fields := DerTlv(outer.value.value, 0);
      if fields == None || fields.value.tag != SEQUENCE then None
      else WalkFields(fields.value.value, 0)
  }

  // _spnego_response_token; absent credentials read as the empty string. The
  // loop ends on every input, malformed or not.
  method SpnegoResponseToken(raw: bytes) returns (token: Option<bytes>)
    ensures token == TokenOf(raw)
  {
    if raw == [] {
      return None;
    }
    var outer := DerTlv(raw, 0);
    if outer == None || outer.value.tag != NEG_TOKEN_RESP {
      return None;
    }
    var fields := DerTlv(outer.value.value, 0);
    if fields == None || fields.value.tag != SEQUENCE {
      return None;
    }
    var body, i := fields.value.value, 0;
    while i < |body|
      invariant WalkFields(body, i) == TokenOf(raw)
      decreases |body| - i
    {
      var field := DerTlv(body, i);
      if field == None {
        return None;
      }
      if field.value.tag == RESPONSE_TOKEN {
        var octets := DerTlv(field.value.value, 0);
        if octets == None || octets.value.tag != OCTET_STRING || octets.value.value == [] {
          return None;
        }
        return Some(octets.value.value);
      }
      i := field.value.next;
    }
    token := None;
  }

  // ---- the encoder ----

  // An element with a definite length: lengthOctets is 0 for the short form,
  // 1..127 for the long form, minimal or not.
  datatype Element = Element(tag: byte, lengthOctets: nat, value: bytes) {
    predicate Encodable() {
      if lengthOctets == 0 then |value| < 0x80
      else lengthOctets < 0x80 && |value| < Pow256(lengthOctets)
    }

    function Encode(): bytes
      requires Encodable()
    {
      [tag] + LengthOctets() + value
    }

    function LengthOctets(): (r: bytes)
      requires Encodable()
      ensures |r| == 1 + lengthOctets
    {
      if lengthOctets == 0 then [|value|] else [0x80 + lengthOctets] + PackBE(|value|, lengthOctets)
    }
  }

  // Where an element's octets land when it stands between others.
  lemma ElementLayout(before: bytes, e: Element, rest: bytes)
    requires e.Encodable()
    ensures var buf, i, h := before + e.Encode() + rest, |before|, e.LengthOctets();
            && |e.Encode()| == 1 + |h| + |e.value| && |buf| == i + |e.Encode()| + |rest|
            && buf[i] == e.tag && buf[i + 1] == h[0]
            && buf[i + 2..i + 1 + |h|] == h[1..]
            && buf[i + 1 + |h|..i + 1 + |h| + |e.value|] == e.value
  {
    hide Element.LengthOctets, Element.Encodable;
    var h := e.LengthOctets();
    assert before + e.Encode() + rest == before + ([e.tag] + h + e.value) + rest;
  }

  // The walker reads back any element, wherever it stands.
  lemma TlvInvertsEncode(before: bytes, e: Element, rest: bytes)
    requires e.Encodable()
    ensures DerTlv(before + e.Encode() + rest, |before|)
            == Some(Tlv(e.tag, e.value, |before| + |e.Encode()|))
  {
    ElementLayout(before, e, rest);
    if e.lengthOctets > 0 {
      UnpackPackBE(|e.value|, e.lengthOctets);
      assert e.LengthOctets()[1..] == PackBE(|e.value|, e.lengthOctets);
    }
    hide PackBE, UnpackBE, Element.Encode;
  }

  lemma TlvAtStart(e: Element, rest: bytes)
    requires e.Encodable()
    ensures DerTlv(e.Encode() + rest, 0) == Some(Tlv(e.tag, e.value, |e.Encode()|))
  {
    hide *;
    assert [] + e.Encode() + rest == e.Encode() + rest;
    TlvInvertsEncode([], e, rest);
  }

  lemma TlvAlone(e: Element)
    requires e.Encodable()
    ensures DerTlv(e.Encode(), 0) == Some(Tlv(e.tag, e.value, |e.Encode()|))
  {
    hide *;
    assert e.Encode() + [] == e.Encode();
    TlvAtStart(e, []);
  }

  // A field of the negTokenResp: the response token with its inner OCTET
  // STRING, or any other.
  datatype Field =
    | Token(outerLength: nat, innerLength: nat, octets: bytes)
    | Other(element: Element)
  {
    function Inner(): Element
      requires Token?
    {
      Element(0x04, innerLength, octets)
    }

    predicate WellFormed() {
      if Token? then Inner().Encodable() && Element(0xA2, outerLength, Inner().Encode()).Encodable()
      else element.Encodable() && element.tag != 0xA2
    }

    function AsElement(): Element
      requires WellFormed()
    {
      if Token? then Element(0xA2, outerLength, Inner().Encode()) else element
    }
  }

  function EncodeFields(fields: seq<Field>): bytes
    requires forall f <- fields :: f.WellFormed()
  {
    if fields == [] then [] else fields[0].AsElement().Encode() + EncodeFields(fields[1..])
  }

  // The octets of the first response token, unless there is none or it is empty.
  function FirstToken(fields: seq<Field>): Option<bytes> {
    if fields == [] then None
    else if fields[0].Token? then (if fields[0].octets == [] then None else Some(fields[0].octets))
    else FirstToken(fields[1..])
  }

  lemma {:induction false} WalkFindsFirstToken(before: bytes, fields: seq<Field>)
    requires forall f <- fields :: f.WellFormed()
    ensures WalkFields(before + EncodeFields(fields), |before|) == FirstToken(fields)
    decreases |fields|
  {
    hide DerTlv, Element.Encode, Element.Encodable;
    if fields == [] {
      assert before + EncodeFields(fields) == before;
    } else {
      var e := fields[0].AsElement();
      var buf := before + EncodeFields(fields);
      assert buf == before + e.Encode() + EncodeFields(fields[1..]);
      TlvInvertsEncode(before, e, EncodeFields(fields[1..]));
      if fields[0].Token? {
        var inner := fields[0].Inner();
        TlvAlone(inner);
      } else {
        WalkFindsFirstToken(before + e.Encode(), fields[1..]);
      }
    }
  }

  // A whole negTokenResp, every length in any definite form, anything behind
  // it: the walk returns the response token of whichever fields are present.
  lemma WalkerInvertsEncoder(fields: seq<Field>, seqLength: nat, outerLength: nat, rest: bytes)
    requires forall f <- fields :: f.WellFormed()
    requires var body := Element(0x30, seqLength, EncodeFields(fields));
             body.Encodable() && Element(0xA1, outerLength, body.Encode()).Encodable()
    ensures var body := Element(0x30, seqLength, EncodeFields(fields));
            var resp := Element(0xA1, outerLength, body.Encode());
            TokenOf(resp.Encode() + rest) == FirstToken(fields)
  {
    var body := Element(0x30, seqLength, EncodeFields(fields));
    var resp := Element(0xA1, outerLength, body.Encode());
    hide DerTlv, Element.Encode, Element.Encodable, WalkFields, FirstToken, EncodeFields, Field.WellFormed;
    TlvAtStart(resp, rest);
    TlvAlone(body);
    WalkFindsFirstToken([], fields);
    assert [] + EncodeFields(fields) == EncodeFields(fields);
  }

  // ---- what is not read ----

  // An indefinite length, and any element cut short, is no element.
  lemma CutShortIsNoElement(e: Element, k: nat)
    requires e.Encodable() && k < |e.Encode()|
    ensures DerTlv(e.Encode()[..k], 0) == None
  {
    var buf, part := e.Encode(), e.Encode()[..k];
    TlvAlone(e);
    if k >= 2 && e.lengthOctets > 0 && k >= 2 + e.lengthOctets {
      assert part[2..2 + e.lengthOctets] == buf[2..2 + e.lengthOctets];
    }
  }

  lemma IndefiniteIsNoElement(tag: byte, rest: bytes)
    ensures DerTlv([tag, 0x80] + rest, 0) == None
  {
  }

  // Credentials that are not a negTokenResp, or one that holds no SEQUENCE,
  // carry no token.
  lemma OtherTagsCarryNothing(e: Element, rest: bytes, inner: Element, more: bytes)
    requires e.Encodable() && inner.Encodable()
    requires e.tag != 0xA1 || (e.value == inner.Encode() + more && inner.tag != 0x30)
    ensures TokenOf(e.Encode() + rest) == None
  {
    hide DerTlv, Element.Encode, Element.Encodable;
    TlvAtStart(e, rest);
    TlvAtStart(inner, more);
  }

  // A response token that holds anything but an OCTET STRING is none.
  lemma OtherContentsAreNoToken(inner: Element, more: bytes)
    requires inner.Encodable() && inner.tag != 0x04
    ensures OctetsOf(inner.Encode() + more) == None
  {
    hide DerTlv, Element.Encode, Element.Encodable;
    TlvAtStart(inner, more);
  }
}

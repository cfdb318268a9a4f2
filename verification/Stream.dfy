// The post-bind byte stream as a pure parser sees it: length-prefixed SASL
// frames (RFC 4422, section 3.7) mixed with unwrapped LDAPMessages, and the
// batches of messages they carry.

module Stream {
  import opened Bytes
  import opened Ber
  import opened LayerChannel

  // ---- one unit: a SASL frame with its prefix, or a plain message ----

  datatype Parsed =
    | Parsed(sasl: bool, unit: bytes, rest: bytes)
    | Truncated  // the stream ends inside the unit
    | NotLdap    // six octets or more that can never become an LDAPMessage

  function ParsePlain(stream: bytes): (p: Parsed)
    ensures p.Parsed? ==> !p.sasl && |p.unit| >= 2
  {
    match MessageLength(stream)
    case None => if |stream| >= 6 then NotLdap else Truncated
    case Some(total) => if |stream| >= total then Parsed(false, stream[..total], stream[total..]) else Truncated
  }

  function ParseFrame(stream: bytes): (p: Parsed)
    ensures p.Parsed? ==> p.sasl && |p.unit| >= 4
  {
    if |stream| < 4 then Truncated
    else
      var end := 4 + UnpackBE(stream[..4]);
      if |stream| >= end then Parsed(true, stream[..end], stream[end..]) else Truncated
  }

  // A leading 0x30 is read as plain BER, never as a length.
  function ParseUnit(stream: bytes): (p: Parsed)
    ensures p.Parsed? ==> |p.unit| + |p.rest| == |stream| && |p.unit| >= 2 && (p.sasl ==> |p.unit| >= 4)
  {
    if stream == [] then Truncated
    else if stream[0] == SEQUENCE then ParsePlain(stream)
    else ParseFrame(stream)
  }

  // LDAPTransport.encrypt's framing; struct's "!I" has no room past 32 bits.
  function Frame(wrapped: bytes): Option<bytes> {
    if |wrapped| < 0x1_0000_0000 then Some(PackBE(|wrapped|, 4) + wrapped) else None
  }

  lemma FrameHeader(wrapped: bytes, rest: bytes)
    requires Frame(wrapped).Some?
    ensures var s := Frame(wrapped).value + rest;
            && |s| >= 4 && s[0] == |wrapped| / 0x100_0000
            && UnpackBE(s[..4]) == |wrapped|
            && s[..4 + |wrapped|] == Frame(wrapped).value && s[4 + |wrapped|..] == rest
  {
    Pow256Values();
    UnpackPackBE(|wrapped|, 4);
    var s := Frame(wrapped).value + rest;
    assert s[..4] == PackBE(|wrapped|, 4);
    TopOctet(|wrapped|);
  }

  lemma TopOctet(n: nat)
    requires n < 0x1_0000_0000
    ensures PackBE(n, 4)[0] == n / 0x100_0000
  {
    assert PackBE(n / 256 / 256 / 256, 1) == [n / 256 / 256 / 256];
    assert PackBE(n / 256 / 256, 2)[0] == n / 256 / 256 / 256;
    assert PackBE(n / 256, 3)[0] == n / 256 / 256 / 256;
    assert n / 256 / 256 / 256 == n / 0x100_0000;
  }

  // The exact condition on framing: a frame is cut off the stream as itself,
  // whatever follows, if and only if its length does not have 0x30 on top.
  lemma FrameReadsBackExactly(wrapped: bytes, rest: bytes)
    requires Frame(wrapped).Some?
    ensures ParseUnit(Frame(wrapped).value + rest) == Parsed(true, Frame(wrapped).value, rest)
            <==> |wrapped| / 0x100_0000 != 0x30
  {
    FrameHeader(wrapped, rest);
  }

  // Plain messages interleave freely: each is cut off as itself.
  lemma PlainMessageReadsBack(m: LdapMessage, rest: bytes)
    requires m.Encodable()
    ensures ParseUnit(m.Encode() + rest) == Parsed(false, m.Encode(), rest)
  {
    FramerInvertsEncode(m, rest);
    var s := m.Encode() + rest;
    assert s[0] == SEQUENCE;
    assert s[..|m.Encode()|] == m.Encode() && s[|m.Encode()|..] == rest;
  }

  // ---- batches ----

  datatype Op = SearchResEntry | SearchResRef | OtherOp | Unrecognizable

  // pyasn1's verdict on the head of some octets.
  datatype Decoded =
    | Underrun
    | Malformed
    | Message(used: nat, op: Op)

  datatype Verdict = Complete | Incomplete | Undecodable

  // A message takes at least one octet and no more than there are; the clamp
  // says this of every decoder.
  function Consumed(d: Decoded, data: bytes): (n: nat)
    requires d.Message? && data != []
    ensures 0 < n <= |data|
  {
    if 0 < d.used <= |data| then d.used else |data|
  }

  predicate Terminal(op: Op) { !op.SearchResEntry? && !op.SearchResRef? }

  // _batch_is_complete, from the octets left and the last message so far.
  function BatchFrom(decode: bytes -> Decoded, data: bytes, last: Option<Op>): Verdict
    decreases |data|
  {
    if data == [] then
      if last.Some? && Terminal(last.value) then Complete else Incomplete
    else match decode(data)
      case Underrun => Incomplete
      case Malformed => Undecodable
      case Message(_, op) => BatchFrom(decode, data[Consumed(decode(data), data)..], Some(op))
  }

  function BatchVerdict(decode: bytes -> Decoded, plaintext: bytes): Verdict
  {
    BatchFrom(decode, plaintext, None)
  }

  // A message and what the decoder makes of it wherever it stands.
  datatype Item = Item(octets: bytes, op: Op)

  ghost predicate DecodesAs(decode: bytes -> Decoded, item: Item) {
    item.octets != [] && forall more: bytes :: decode(item.octets + more) == Message(|item.octets|, item.op)
  }

  function Octets(items: seq<Item>): bytes {
    if items == [] then [] else items[0].octets + Octets(items[1..])
  }

  // Whole messages end the batch exactly when the last one ends its operation.
  lemma {:induction false} BatchEndsWithTerminal(decode: bytes -> Decoded, items: seq<Item>, last: Option<Op>)
    requires forall i :: 0 <= i < |items| ==> DecodesAs(decode, items[i])
    requires items != [] || last.Some?
    ensures var final := if items == [] then last.value else items[|items| - 1].op;
            BatchFrom(decode, Octets(items), last) == (if Terminal(final) then Complete else Incomplete)
    decreases |items|
  {
    if items != [] {
      assert DecodesAs(decode, items[0]);
      var n := |items[0].octets|;
      assert Octets(items) == items[0].octets + Octets(items[1..]);
      assert decode(Octets(items)) == Message(n, items[0].op);
      assert Octets(items)[n..] == Octets(items[1..]);
      BatchEndsWithTerminal(decode, items[1..], Some(items[0].op));
    }
  }

  // A message of which only a part has come.
  ghost predicate Underruns(decode: bytes -> Decoded, item: Item) {
    forall k :: 0 < k < |item.octets| ==> decode(item.octets[..k]) == Underrun
  }

  // Behind whole messages, an underrun asks for more and anything undecodable
  // raises, whatever the messages were.
  lemma {:induction false} TailDecides(decode: bytes -> Decoded, items: seq<Item>, tail: bytes, last: Option<Op>)
    requires forall i :: 0 <= i < |items| ==> DecodesAs(decode, items[i])
    requires tail != [] && !decode(tail).Message?
    ensures BatchFrom(decode, Octets(items) + tail, last)
            == (if decode(tail) == Underrun then Incomplete else Undecodable)
    decreases |items|
  {
    var data := Octets(items) + tail;
    if items == [] {
      assert data == tail;
    } else {
      assert DecodesAs(decode, items[0]);
      var more := Octets(items[1..]) + tail;
      assert data == items[0].octets + more;
      assert data[|items[0].octets|..] == more;
      TailDecides(decode, items[1..], tail, Some(items[0].op));
    }
  }

  // Entries and referrals, then the message that ends the operation.
  ghost predicate IsResponse(decode: bytes -> Decoded, items: seq<Item>) {
    && items != []
    && (forall i :: 0 <= i < |items| ==> DecodesAs(decode, items[i]))
    && (forall i :: 0 <= i < |items| ==>
          (items[i].op.SearchResEntry? || items[i].op.SearchResRef? <==> i < |items| - 1))
  }

  ghost predicate AllUnderrun(decode: bytes -> Decoded, items: seq<Item>) {
    forall i :: 0 <= i < |items| ==> Underruns(decode, items[i])
  }

  // However a response is cut short, between its messages or inside one, what
  // has come is not a complete batch and not an error.
  lemma {:induction false} CutShortIsIncomplete(decode: bytes -> Decoded, items: seq<Item>, n: nat, last: Option<Op>)
    requires IsResponse(decode, items) && AllUnderrun(decode, items) && n < |Octets(items)|
    requires last.Some? ==> last.value.SearchResEntry? || last.value.SearchResRef?
    ensures BatchFrom(decode, Octets(items)[..n], last) == Incomplete
    decreases |items|
  {
    var first := items[0].octets;
    assert DecodesAs(decode, items[0]) && Underruns(decode, items[0]);
    var data := Octets(items)[..n];
    if n < |first| {
      assert data == first[..n];
    } else {
      var more := Octets(items[1..])[..n - |first|];
      assert data == first + more;
      assert decode(first + more) == Message(|first|, items[0].op);
      assert data[|first|..] == more;
      assert |items| > 1;
      CutShortIsIncomplete(decode, items[1..], n - |first|, Some(items[0].op));
    }
  }

  // A decoder that sizes messages as the framer does, and names their
  // operations by some rule.
  function FramerDecoder(op: bytes -> Op): bytes -> Decoded {
    (data: bytes) =>
      match MessageLength(data)
      case None => if |data| < 6 then Underrun else Malformed
      case Some(n) => if |data| < n then Underrun else Message(n, op(data[..n]))
  }

  // Under it every encoded LDAPMessage is read wherever it stands, and every
  // part of one is an underrun.
  lemma EncodedDecodes(op: bytes -> Op, m: LdapMessage)
    requires m.Encodable()
    ensures var item := Item(m.Encode(), op(m.Encode()));
            DecodesAs(FramerDecoder(op), item) && Underruns(FramerDecoder(op), item)
  {
    var e, decode := m.Encode(), FramerDecoder(op);
    hide LdapMessage.Encode, LdapMessage.Encodable, MessageLength;
    FramerInvertsEncode(m, []);
    assert e + [] == e;
    forall more: bytes ensures decode(e + more) == Message(|e|, op(e)) {
      FramerInvertsEncode(m, more);
      assert (e + more)[..|e|] == e;
    }
    forall k | 0 < k < |e| ensures decode(e[..k]) == Underrun {
      assert e[..k] + e[k..] == e;
      if MessageLength(e[..k]).Some? {
        SizeIsStable(e[..k], e[k..]);
      } else if k >= 6 {
        SixOctetsSettle(e[..k], e[k..]);
      }
    }
  }

  // The messages some octets decode to, as far as they do.
  function Split(decode: bytes -> Decoded, data: bytes): seq<Item>
    decreases |data|
  {
    if data == [] || !decode(data).Message? then []
    else
      var n := Consumed(decode(data), data);
      [Item(data[..n], decode(data).op)] + Split(decode, data[n..])
  }

  // Whole messages, at least one, the last of which ends its operation.
  predicate EndsOperation(decode: bytes -> Decoded, data: bytes) {
    var items := Split(decode, data);
    items != [] && Terminal(items[|items| - 1].op) && Octets(items) == data
  }

  // A complete batch is nothing but whole messages, and the last of them ends
  // its operation.
  lemma {:induction false} CompleteBatchEnds(decode: bytes -> Decoded, data: bytes, last: Option<Op>)
    requires BatchFrom(decode, data, last) == Complete
    ensures var items := Split(decode, data);
            && Octets(items) == data
            && (if items == [] then last.Some? && Terminal(last.value) else Terminal(items[|items| - 1].op))
    decreases |data|
  {
    if data != [] {
      var n := Consumed(decode(data), data);
      CompleteBatchEnds(decode, data[n..], Some(decode(data).op));
      assert data == data[..n] + data[n..];
    }
  }

  // ---- recv_raw as a function of the whole stream ----

  datatype Error =
    | ConnectionClosed
    | NotAnLdapMessage
    | NoLayer
    | LayerRaised
    | UndecodableBatch
    | TooLongToFrame
    | Disconnected(notice: string)

  datatype Outcome = Ok(data: bytes) | Raised(error: Error)

  // What the transport is given: the layer, pyasn1, and the search for a
  // Notice of Disconnection in a plaintext.
  datatype Env<!S> = Env(
    layer: Layer<S>,
    decode: bytes -> Decoded,
    notice: bytes -> Option<string>)

  // rest is the unconsumed suffix, always at a unit boundary.
  datatype Received<+S> = Received(outcome: Outcome, layer: Option<S>, rest: bytes)

  // The plaintext of one unit, and the layer after it.
  function OpenUnit<S>(env: Env<S>, layer: Option<S>, sasl: bool, unit: bytes): (Outcome, Option<S>)
    requires sasl ==> |unit| >= 4
  {
    if !sasl then (Ok(unit), layer)
    else match layer
      case None => (Raised(NoLayer), None)
      case Some(s) =>
        var (plain, s') := env.layer.unwrap(s, unit[4..]);
        (if plain.Some? then Ok(plain.value) else Raised(LayerRaised), Some(s'))
  }

  function Receive<S>(env: Env<S>, layer: Option<S>, stream: bytes, plaintext: bytes): Received<S>
    decreases |stream|
  {
    match ParseUnit(stream)
    case Truncated => Received(Raised(ConnectionClosed), layer, stream)
    case NotLdap => Received(Raised(NotAnLdapMessage), layer, stream)
    case Parsed(sasl, unit, rest) =>
      var (body, layer') := OpenUnit(env, layer, sasl, unit);
      if body.Raised? then Received(body, layer', rest)
      else
        var text := plaintext + body.data;
        match BatchVerdict(env.decode, text)
        case Undecodable => Received(Raised(UndecodableBatch), layer', rest)
        case Incomplete => Receive(env, layer', rest, text)
        case Complete => Received(Deliver(env, text), layer', rest)
  }

  function Deliver<S>(env: Env<S>, text: bytes): Outcome {
    match env.notice(text)
    case Some(n) => Raised(Disconnected(n))
    case None => Ok(text)
  }

  // With a layer in place, a receive leaves one in place and never reports
  // that there is none.
  lemma {:induction false} ReceiveKeepsLayer<S>(env: Env<S>, layer: Option<S>, stream: bytes, plaintext: bytes)
    requires layer.Some?
    ensures Receive(env, layer, stream, plaintext).layer.Some?
    ensures Receive(env, layer, stream, plaintext).outcome != Raised(NoLayer)
    decreases |stream|
  {
    hide ParsePlain, ParseFrame, BatchVerdict;
    var p := ParseUnit(stream);
    if p.Parsed? {
      var (body, layer') := OpenUnit(env, layer, p.sasl, p.unit);
      if body.Ok? {
        ReceiveKeepsLayer(env, layer', p.rest, plaintext + body.data);
      }
    }
  }

  // What a receive returns is one batch.
  lemma {:induction false} ReceivedIsWholeBatch<S>(env: Env<S>, layer: Option<S>, stream: bytes, plaintext: bytes)
    requires Receive(env, layer, stream, plaintext).outcome.Ok?
    ensures EndsOperation(env.decode, Receive(env, layer, stream, plaintext).outcome.data)
    decreases |stream|
  {
    hide ParsePlain, ParseFrame, Split, Octets, BatchFrom;
    var p := ParseUnit(stream);
    var (body, layer') := OpenUnit(env, layer, p.sasl, p.unit);
    var text := plaintext + body.data;
    if BatchVerdict(env.decode, text) == Complete {
      CompleteBatchEnds(env.decode, text, None);
    } else {
      ReceivedIsWholeBatch(env, layer', p.rest, text);
    }
  }

  // ---- a whole response, end to end ----

  // What a server puts on the stream: a message through its layer, or, once it
  // has dropped the layer, an LDAPMessage as it is.
  datatype Piece = Wrapped(p: bytes) | Bare(m: LdapMessage) {
    function Text(): bytes
      requires Bare? ==> m.Encodable()
    {
      if Wrapped? then p else m.Encode()
    }
  }

  function After<S>(l: Layer<S>, s: S, x: Piece): S {
    if x.Wrapped? then l.wrap(s, x.p).1 else s
  }

  predicate CanSend<S>(l: Layer<S>, s: S, x: Piece) {
    if x.Wrapped? then l.wrap(s, x.p).0.Some? && Frame(l.wrap(s, x.p).0.value).Some? else x.m.Encodable()
  }

  function OnTheWire<S>(l: Layer<S>, s: S, x: Piece): bytes
    requires CanSend(l, s, x)
  {
    if x.Wrapped? then Frame(l.wrap(s, x.p).0.value).value else x.m.Encode()
  }

  // No exception on the way out.
  predicate Sendable<S>(l: Layer<S>, s: S, xs: seq<Piece>)
    decreases |xs|
  {
    xs == [] || (CanSend(l, s, xs[0]) && Sendable(l, After(l, s, xs[0]), xs[1..]))
  }

  // Sent one after another: wrapped, framed, concatenated.
  function SendAll<S>(l: Layer<S>, s: S, xs: seq<Piece>): bytes
    requires Sendable(l, s, xs)
    decreases |xs|
  {
    if xs == [] then [] else OnTheWire(l, s, xs[0]) + SendAll(l, After(l, s, xs[0]), xs[1..])
  }

  function SenderAfter<S>(l: Layer<S>, s: S, xs: seq<Piece>): S
    decreases |xs|
  {
    if xs == [] then s else SenderAfter(l, After(l, s, xs[0]), xs[1..])
  }

  function Texts<S>(l: Layer<S>, s: S, xs: seq<Piece>): seq<bytes>
    requires Sendable(l, s, xs)
    decreases |xs|
  {
    if xs == [] then [] else [xs[0].Text()] + Texts(l, After(l, s, xs[0]), xs[1..])
  }

  // A wrapped message fits its receiver, and its frame's length is not
  // mistaken for a SEQUENCE tag.
  predicate ArrivesOne<S, V>(l: Layer<S>, c: Contract<S, V>, s: S, r: S, x: Piece)
    requires CanSend(l, s, x)
  {
    x.Wrapped? ==>
      var w := l.wrap(s, x.p).0.value;
      |w| / 0x100_0000 != 0x30 && c.fits(r, c.out(s), w)
  }

  function ReceiverAfter<S>(l: Layer<S>, s: S, r: S, x: Piece): S
    requires CanSend(l, s, x)
  {
    if x.Wrapped? then l.unwrap(r, l.wrap(s, x.p).0.value).1 else r
  }

  function ReceiverAtEnd<S>(l: Layer<S>, s: S, r: S, xs: seq<Piece>): S
    requires Sendable(l, s, xs)
    decreases |xs|
  {
    if xs == [] then r else ReceiverAtEnd(l, After(l, s, xs[0]), ReceiverAfter(l, s, r, xs[0]), xs[1..])
  }

  predicate Arrives<S, V>(l: Layer<S>, c: Contract<S, V>, s: S, r: S, xs: seq<Piece>)
    requires Sendable(l, s, xs)
    decreases |xs|
  {
    xs == [] ||
    (ArrivesOne(l, c, s, r, xs[0]) && Arrives(l, c, After(l, s, xs[0]), ReceiverAfter(l, s, r, xs[0]), xs[1..]))
  }

  // Reading n units: a frame goes through decrypt, a plain message as it is.
  datatype Reading<+S> = Stuck | Read(texts: seq<bytes>, layer: S, rest: bytes)

  function ReadUnits<S>(env: Env<S>, r: S, stream: bytes, n: nat): (reading: Reading<S>)
    ensures reading.Read? ==> |reading.texts| == n
  {
    if n == 0 then Read([], r, stream)
    else
      var p := ParseUnit(stream);
      if !p.Parsed? then Stuck
      else
        var (body, r') := OpenUnit(env, Some(r), p.sasl, p.unit);
        if body.Raised? || r' == None then Stuck
        else match ReadUnits(env, r'.value, p.rest, n - 1)
          case Stuck => Stuck
          case Read(more, r'', end) => Read([body.data] + more, r'', end)
  }

  lemma FirstPieceArrives<S(!new), V(!new)>(
    env: Env<S>, c: Contract<S, V>, s: S, r: S, x: Piece, rest: bytes)
    requires OneWay(env.layer, c) && c.valid(s) && c.valid(r) && c.accepts(r, c.out(s))
    requires CanSend(env.layer, s, x) && ArrivesOne(env.layer, c, s, r, x)
    ensures var s1, r1 := After(env.layer, s, x), ReceiverAfter(env.layer, s, r, x);
            var unit := OnTheWire(env.layer, s, x);
            && c.valid(s1) && c.valid(r1) && c.accepts(r1, c.out(s1))
            && ParseUnit(unit + rest) == Parsed(x.Wrapped?, unit, rest)
            && (x.Wrapped? ==> |unit| >= 4)
            && OpenUnit(env, Some(r), x.Wrapped?, unit) == (Ok(x.Text()), Some(r1))
  {
    if x.Wrapped? {
      assert WrapAdvances(env.layer, c, s, x.p);
      assert UnwrapReturns(env.layer, c, r, c.out(s), x.p);
      var w := env.layer.wrap(s, x.p).0.value;
      FrameReadsBackExactly(w, rest);
      assert Frame(w).value[4..] == w;
    } else {
      PlainMessageReadsBack(x.m, rest);
    }
  }

  // Whatever layer does one way, and however plain messages are mixed in: what is
  // sent, wrapped, length-prefixed and concatenated, is read back in order and
  // without loss, with everything behind it left unread and the receiver ready
  // for the sender's next message.
  lemma {:induction false} SentIsRead<S(!new), V(!new)>(
    env: Env<S>, c: Contract<S, V>, s: S, r: S, xs: seq<Piece>, rest: bytes)
    requires OneWay(env.layer, c) && c.valid(s) && c.valid(r) && c.accepts(r, c.out(s))
    requires Sendable(env.layer, s, xs) && Arrives(env.layer, c, s, r, xs)
    ensures var reading := ReadUnits(env, r, SendAll(env.layer, s, xs) + rest, |xs|);
            && reading.Read? && reading.texts == Texts(env.layer, s, xs) && reading.rest == rest
            && reading.layer == ReceiverAtEnd(env.layer, s, r, xs)
            && c.valid(reading.layer) && c.accepts(reading.layer, c.out(SenderAfter(env.layer, s, xs)))
    decreases |xs|
  {
    hide ParseUnit, OpenUnit, CanSend, OnTheWire, After, ReceiverAfter, ArrivesOne;
    var l := env.layer;
    if xs == [] {
      assert SendAll(l, s, xs) + rest == rest;
    } else {
      var s1, r1 := After(l, s, xs[0]), ReceiverAfter(l, s, r, xs[0]);
      var tail := SendAll(l, s1, xs[1..]) + rest;
      FirstPieceArrives(env, c, s, r, xs[0], tail);
      SentIsRead(env, c, s1, r1, xs[1..], rest);
      assert SendAll(l, s, xs) + rest == OnTheWire(l, s, xs[0]) + tail;
    }
  }

  // The texts complete the batch together and not before.
  ghost predicate OneBatch(decode: bytes -> Decoded, plaintext: bytes, texts: seq<bytes>)
    decreases |texts|
  {
    && texts != []
    && BatchVerdict(decode, plaintext + texts[0]) == (if |texts| == 1 then Complete else Incomplete)
    && (|texts| > 1 ==> OneBatch(decode, plaintext + texts[0], texts[1..]))
  }

  // One turn of the reading loop.
  lemma ReceiveTurn<S>(env: Env<S>, r: S, stream: bytes, n: nat, plaintext: bytes)
    requires n > 0 && ReadUnits(env, r, stream, n).Read?
    ensures var reading, p := ReadUnits(env, r, stream, n), ParseUnit(stream);
            && p.Parsed?
            && var (body, r1) := OpenUnit(env, Some(r), p.sasl, p.unit);
            && body == Ok(reading.texts[0]) && r1.Some?
            && ReadUnits(env, r1.value, p.rest, n - 1) == Read(reading.texts[1..], reading.layer, reading.rest)
            && var text := plaintext + body.data;
            && (BatchVerdict(env.decode, text) == Incomplete ==>
                  Receive(env, Some(r), stream, plaintext) == Receive(env, r1, p.rest, text))
            && (BatchVerdict(env.decode, text) == Complete ==>
                  Receive(env, Some(r), stream, plaintext) == Received(Deliver(env, text), r1, p.rest))
  {
    hide ParsePlain, ParseFrame, OpenUnit, BatchVerdict;
  }

  // One receive coalesces the units of one batch, however many they are.
  lemma {:induction false} ReceiveCoalesces<S>(
    env: Env<S>, r: S, stream: bytes, n: nat, plaintext: bytes)
    requires ReadUnits(env, r, stream, n).Read?
    requires OneBatch(env.decode, plaintext, ReadUnits(env, r, stream, n).texts)
    ensures var reading := ReadUnits(env, r, stream, n);
            Receive(env, Some(r), stream, plaintext)
            == Received(Deliver(env, plaintext + Concat(reading.texts)), Some(reading.layer), reading.rest)
    decreases n
  {
    hide BatchVerdict, ParseUnit, OpenUnit;
    var texts := ReadUnits(env, r, stream, n).texts;
    ReceiveTurn(env, r, stream, n, plaintext);
    var p := ParseUnit(stream);
    var r1 := OpenUnit(env, Some(r), p.sasl, p.unit).1.value;
    if n == 1 {
      assert Concat(texts) == texts[0];
    } else {
      ReceiveCoalesces(env, r1, p.rest, n - 1, plaintext + texts[0]);
      assert plaintext + Concat(texts) == plaintext + texts[0] + Concat(texts[1..]);
    }
  }

  // The pieces of a response, cut anywhere, complete the batch with the last of
  // them.
  lemma {:induction false} CutIsOneBatch(decode: bytes -> Decoded, items: seq<Item>, before: bytes, texts: seq<bytes>)
    requires IsResponse(decode, items) && AllUnderrun(decode, items)
    requires texts != [] && texts[|texts| - 1] != [] && before + Concat(texts) == Octets(items)
    ensures OneBatch(decode, before, texts)
    decreases |texts|
  {
    hide BatchFrom, DecodesAs, Underruns, Octets;
    var now := before + texts[0];
    assert now + Concat(texts[1..]) == Octets(items);
    if |texts| == 1 {
      assert now == Octets(items);
      BatchEndsWithTerminal(decode, items, None);
    } else {
      NotEmptyYet(texts[1..]);
      assert now == Octets(items)[..|now|];
      CutShortIsIncomplete(decode, items, |now|, None);
      CutIsOneBatch(decode, items, now, texts[1..]);
    }
  }

  lemma {:induction false} NotEmptyYet(texts: seq<bytes>)
    requires texts != [] && texts[|texts| - 1] != []
    ensures Concat(texts) != []
    decreases |texts|
  {
    if |texts| > 1 {
      NotEmptyYet(texts[1..]);
    }
  }

  // ---- what ends a receive early ----

  // A frame whose body the layer refuses, or that comes where there is no
  // layer, raises with the stream left behind it, whatever came before.
  lemma RefusedFrameRaises<S>(env: Env<S>, layer: Option<S>, w: bytes, rest: bytes, plaintext: bytes)
    requires Frame(w).Some? && |w| / 0x100_0000 != 0x30
    requires layer.Some? ==> env.layer.unwrap(layer.value, w).0 == None
    ensures Receive(env, layer, Frame(w).value + rest, plaintext)
            == (match layer
                case None => Received(Raised(NoLayer), None, rest)
                case Some(r) => Received(Raised(LayerRaised), Some(env.layer.unwrap(r, w).1), rest))
  {
    FrameReadsBackExactly(w, rest);
    assert Frame(w).value[4..] == w;
    hide ParseUnit, Frame, BatchVerdict;
  }

  // A connection that closes inside a frame or a message, or before one, is
  // reported as closed; nothing is consumed.
  lemma ClosedInsideFrame<S>(env: Env<S>, layer: Option<S>, w: bytes, k: nat, plaintext: bytes)
    requires Frame(w).Some? && |w| / 0x100_0000 != 0x30 && k < |Frame(w).value|
    ensures var stream := Frame(w).value[..k];
            Receive(env, layer, stream, plaintext) == Received(Raised(ConnectionClosed), layer, stream)
  {
    var stream, frame := Frame(w).value[..k], Frame(w).value;
    FrameHeader(w, []);
    assert frame + [] == frame;
    if k > 0 {
      assert stream[0] == frame[0];
    }
    if k >= 4 {
      assert stream[..4] == frame[..4];
    }
    hide UnpackBE, Frame, MessageLength;
    assert ParseUnit(stream) == Truncated;
  }

  lemma ClosedInsideMessage<S>(env: Env<S>, layer: Option<S>, m: LdapMessage, k: nat, plaintext: bytes)
    requires m.Encodable() && k < |m.Encode()|
    ensures var stream := m.Encode()[..k];
            Receive(env, layer, stream, plaintext) == Received(Raised(ConnectionClosed), layer, stream)
  {
    var stream, e := m.Encode()[..k], m.Encode();
    var op := (data: bytes) => OtherOp;
    EncodedDecodes(op, m);
    if k > 0 {
      assert e[0] == SEQUENCE && stream[0] == e[0];
      assert FramerDecoder(op)(Item(e, OtherOp).octets[..k]) == Underrun;
    }
    hide LdapMessage.Encode, MessageLength;
    assert ParseUnit(stream) == Truncated;
  }

  // Unwrapped octets that can never become an LDAPMessage raise as soon as six
  // of them are there.
  lemma NoMessageRaises<S>(env: Env<S>, layer: Option<S>, stream: bytes, plaintext: bytes)
    requires |stream| >= 6 && stream[0] == 0x30 && (stream[1] == 0x80 || stream[1] > 0x84)
    ensures Receive(env, layer, stream, plaintext) == Received(Raised(NotAnLdapMessage), layer, stream)
  {
  }

  // End to end: a response sent through any layer that does one way is what one
  // receive returns, and the next response starts where it should.
  lemma ResponseArrivesWhole<S(!new), V(!new)>(
    env: Env<S>, c: Contract<S, V>, s: S, r: S, xs: seq<Piece>, rest: bytes)
    requires OneWay(env.layer, c) && c.valid(s) && c.valid(r) && c.accepts(r, c.out(s))
    requires Sendable(env.layer, s, xs) && Arrives(env.layer, c, s, r, xs)
    requires OneBatch(env.decode, [], Texts(env.layer, s, xs))
    ensures var got := Receive(env, Some(r), SendAll(env.layer, s, xs) + rest, []);
            && got.outcome == Deliver(env, Concat(Texts(env.layer, s, xs)))
            && got.rest == rest
            && got.layer == Some(ReceiverAtEnd(env.layer, s, r, xs)) && c.valid(got.layer.value)
            && c.accepts(got.layer.value, c.out(SenderAfter(env.layer, s, xs)))
  {
    hide Receive, ReadUnits, OneBatch, SendAll, Arrives, Sendable;
    SentIsRead(env, c, s, r, xs, rest);
    ReceiveCoalesces(env, r, SendAll(env.layer, s, xs) + rest, |xs|, []);
    var texts := Texts(env.layer, s, xs);
    assert [] + Concat(texts) == Concat(texts);
  }
}

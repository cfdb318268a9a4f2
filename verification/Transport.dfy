// LDAPTransport: the incremental reader over a socket that hands out arbitrary
// chunks, and sending and binding through whatever layer is active.

module Transport {
  import opened Bytes
  import opened Ber
  import opened Stream

  // What the peer has sent and recv() has not returned yet, cut up as the
  // network pleases; an empty list is a closed connection.
  class Socket {
    var incoming: seq<bytes>
    var outgoing: bytes

    ghost predicate Valid()
      reads this
    {
      forall k :: 0 <= k < |incoming| ==> incoming[k] != []
    }

    constructor (incoming: seq<bytes>)
      requires forall k :: 0 <= k < |incoming| ==> incoming[k] != []
      ensures Valid() && this.incoming == incoming && outgoing == []
    {
      this.incoming, outgoing := incoming, [];
    }

    method Recv() returns (chunk: bytes)
      requires Valid()
      modifies this`incoming
      ensures Valid()
      ensures chunk + Concat(incoming) == old(Concat(incoming))
      ensures chunk == [] <==> old(Concat(incoming)) == []
      ensures |incoming| < old(|incoming|) || chunk == []
    {
      if incoming == [] {
        chunk := [];
      } else {
        chunk, incoming := incoming[0], incoming[1..];
      }
    }

    method Send(data: bytes)
      modifies this`outgoing
      ensures outgoing == old(outgoing) + data
    {
      outgoing := outgoing + data;
    }
  }

  // The directory server as a bind sees it: it may answer each request in the
  // light of all that were made.
  class Server<!Q, !R> {
    const answer: seq<Q> -> R
    var asked: seq<Q>

    constructor (answer: seq<Q> -> R)
      ensures this.answer == answer && asked == []
    {
      this.answer, asked := answer, [];
    }

    method Ask(request: Q) returns (reply: R)
      modifies this
      ensures asked == old(asked) + [request]
      ensures reply == answer(asked)
    {
      asked := asked + [request];
      reply := answer(asked);
    }
  }

  class LDAPTransport<!S(!new)> {
    const env: Env<S>
    const encode: (nat, bytes) -> bytes  // an LDAPMessage from its ID and protocolOp
    const signing: bool
    const socket: Socket
    var bound: bool
    var layerStrategy: Option<S>
    var nextMessageId: nat
    var sequenceNumber: nat
    var saslBuf: bytes

    constructor (env: Env<S>, encode: (nat, bytes) -> bytes, signing: bool, socket: Socket)
      ensures this.env == env && this.encode == encode && this.signing == signing && this.socket == socket
      ensures !bound && layerStrategy == None && nextMessageId == 1 && sequenceNumber == 0 && saslBuf == []
    {
      this.env, this.encode, this.signing, this.socket := env, encode, signing, socket;
      bound, layerStrategy, nextMessageId, sequenceNumber, saslBuf := false, None, 1, 0, [];
    }

    // Everything received and not consumed, wherever the chunks fall.
    ghost function Unread(): bytes
      reads this, socket
    {
      saslBuf + Concat(socket.incoming)
    }

    // A signing transport that is bound has a layer to sign with.
    ghost predicate LayerReady()
      reads this
    {
      bound && signing ==> layerStrategy.Some?
    }

    // ---- reading ----

    // _fill_sasl_buf; false stands for its ConnectionClosed error.
    method FillSaslBuf() returns (more: bool)
      requires socket.Valid()
      modifies this`saslBuf, socket`incoming
      ensures socket.Valid() && Unread() == old(Unread())
      ensures more ==> |saslBuf| > |old(saslBuf)| && |socket.incoming| < old(|socket.incoming|)
      ensures !more ==> saslBuf == old(saslBuf) == Unread()
    {
      var chunk := socket.Recv();
      assert saslBuf + (chunk + Concat(socket.incoming)) == saslBuf + chunk + Concat(socket.incoming);
      saslBuf := saslBuf + chunk;
      more := chunk != [];
    }

    // _read_plain_ldap_message, as the parser of the whole stream sees it.
    method ReadPlainLdapMessage() returns (r: Outcome)
      requires socket.Valid()
      modifies this`saslBuf, socket`incoming
      ensures socket.Valid()
      ensures r == UnitOf(ParsePlain(old(Unread())))
      ensures Unread() == Beyond(ParsePlain(old(Unread())), old(Unread()))
    {
      ghost var stream := Unread();
      while true
        invariant socket.Valid() && Unread() == stream
        decreases |socket.incoming|
      {
        PlainPrefix(saslBuf, Concat(socket.incoming));
        var total := MessageLength(saslBuf);
        if total == None {
          if |saslBuf| >= 6 {
            return Raised(NotAnLdapMessage);
          }
        } else if |saslBuf| >= total.value {
          r := Ok(saslBuf[..total.value]);
          saslBuf := saslBuf[total.value..];
          return;
        }
        var more := FillSaslBuf();
        if !more {
          return Raised(ConnectionClosed);
        }
      }
    }

    // _read_sasl_frame
    method ReadSaslFrame() returns (r: Outcome)
      requires socket.Valid()
      modifies this`saslBuf, socket`incoming
      ensures socket.Valid()
      ensures r == UnitOf(ParseFrame(old(Unread())))
      ensures Unread() == Beyond(ParseFrame(old(Unread())), old(Unread()))
    {
      ghost var stream := Unread();
      while |saslBuf| < 4
        invariant socket.Valid() && Unread() == stream
        decreases |socket.incoming|
      {
        var more := FillSaslBuf();
        if !more {
          return Raised(ConnectionClosed);
        }
      }
      var end := 4 + UnpackBE(saslBuf[..4]);
      assert saslBuf[..4] == stream[..4];
      while |saslBuf| < end
        invariant socket.Valid() && Unread() == stream
        decreases |socket.incoming|
      {
        var more := FillSaslBuf();
        if !more {
          return Raised(ConnectionClosed);
        }
      }
      r := Ok(saslBuf[..end]);
      saslBuf := saslBuf[end..];
    }

    // _batch_is_complete
    method BatchIsComplete(plaintext: bytes) returns (v: Verdict)
      ensures v == BatchVerdict(env.decode, plaintext)
    {
      var data, last := plaintext, None;
      while data != []
        invariant BatchFrom(env.decode, data, last) == BatchVerdict(env.decode, plaintext)
        decreases |data|
      {
        var d := env.decode(data);
        match d
        case Underrun => return Incomplete;
        case Malformed => return Undecodable;
        case Message(_, op) => data, last := data[Consumed(d, data)..], Some(op);
      }
      v := if last.Some? && Terminal(last.value) then Complete else Incomplete;
    }

    // decrypt: the frame comes with its four-octet prefix.
    method Decrypt(frame: bytes) returns (r: Outcome)
      requires |frame| >= 4
      modifies this`layerStrategy
      ensures (r, layerStrategy) == OpenUnit(env, old(layerStrategy), true, frame)
    {
      if layerStrategy == None {
        return Raised(NoLayer);
      }
      var (plain, after) := env.layer.unwrap(layerStrategy.value, frame[4..]);
      layerStrategy := Some(after);
      r := if plain.Some? then Ok(plain.value) else Raised(LayerRaised);
    }

    // One turn of recv_raw's loop: the next unit's text, a frame's through
    // decrypt and a plain message's as it is.
    method ReadUnit() returns (text: Outcome)
      requires socket.Valid()
      modifies this`saslBuf, this`layerStrategy, socket`incoming
      ensures socket.Valid()
      ensures var p := ParseUnit(old(Unread()));
              if p.Parsed? then
                (text, layerStrategy) == OpenUnit(env, old(layerStrategy), p.sasl, p.unit) && Unread() == p.rest
              else
                text == UnitOf(p) && layerStrategy == old(layerStrategy) && Unread() == old(Unread())
    {
      hide ParsePlain, ParseFrame;
      ghost var stream := Unread();
      while saslBuf == []
        invariant socket.Valid() && Unread() == stream && layerStrategy == old(layerStrategy)
        decreases |socket.incoming|
      {
        var more := FillSaslBuf();
        if !more {
          return Raised(ConnectionClosed);
        }
      }
      assert stream[0] == saslBuf[0];
      if saslBuf[0] == SEQUENCE {
        text := ReadPlainLdapMessage();
      } else {
        text := ReadSaslFrame();
        if text.Ok? {
          text := Decrypt(text.data);
        }
      }
    }

    // recv_raw. Unless the transport is bound and signing the call is passed on
    // to the base class, untouched; None stands for that. Otherwise what it
    // returns, the layer it leaves and the stream it leaves unread are a
    // function of the stream alone: how the stream was cut into chunks makes no
    // difference.
    method RecvRaw() returns (r: Option<Outcome>)
      requires socket.Valid()
      modifies this`saslBuf, this`layerStrategy, socket`incoming
      ensures socket.Valid()
      ensures r == None <==> !(bound && signing)
      ensures r == None ==>
                && saslBuf == old(saslBuf) && layerStrategy == old(layerStrategy)
                && socket.incoming == old(socket.incoming)
      ensures r.Some? ==>
                Received(r.value, layerStrategy, Unread()) == Receive(env, old(layerStrategy), old(Unread()), [])
      ensures r.Some? && r.value.Ok? ==> EndsOperation(env.decode, r.value.data)
      ensures old(LayerReady()) ==> LayerReady() && r != Some(Raised(NoLayer))
    {
      hide ParseUnit, OpenUnit, BatchVerdict, EndsOperation;
      if !(bound && signing) {
        return None;
      }
      if layerStrategy.Some? {
        ReceiveKeepsLayer(env, layerStrategy, Unread(), []);
      }
      var plaintext: bytes := [];
      ghost var result := Receive(env, layerStrategy, Unread(), []);
      if result.outcome.Ok? {
        ReceivedIsWholeBatch(env, layerStrategy, Unread(), []);
      }
      while true
        invariant socket.Valid()
        invariant Receive(env, layerStrategy, Unread(), plaintext) == result
        decreases |Unread()|
      {
        var text := ReadUnit();
        if text.Raised? {
          return Some(text);
        }
        plaintext := plaintext + text.data;
        var verdict := BatchIsComplete(plaintext);
        if verdict.Undecodable? {
          return Some(Raised(UndecodableBatch));
        }
        if verdict.Complete? {
          break;
        }
      }
      var notice := env.notice(plaintext);
      r := Some(if notice.Some? then Raised(Disconnected(notice.value)) else Ok(plaintext));
    }

    // ---- sending ----

    // encrypt
    method Encrypt(data: bytes) returns (r: Outcome)
      modifies this`layerStrategy
      ensures r == Raised(NoLayer) <==> old(layerStrategy) == None
      ensures old(layerStrategy) == None ==> layerStrategy == None
      ensures old(layerStrategy).Some? ==>
                var (wrapped, after) := env.layer.wrap(old(layerStrategy).value, data);
                && layerStrategy == Some(after)
                && r == (if wrapped == None then Raised(LayerRaised)
                         else match Frame(wrapped.value)
                              case None => Raised(TooLongToFrame)
                              case Some(f) => Ok(f))
    {
      if layerStrategy == None {
        return Raised(NoLayer);
      }
      var (wrapped, after) := env.layer.wrap(layerStrategy.value, data);
      layerStrategy := Some(after);
      if wrapped == None {
        return Raised(LayerRaised);
      }
      var frame := Frame(wrapped.value);
      r := if frame == None then Raised(TooLongToFrame) else Ok(frame.value);
    }

    // send: a message takes the next ID even if it then fails to be wrapped;
    // only a bound, signing transport wraps at all, and only without a strategy
    // does it report a missing one, which a ready transport has.
    method Send(request: bytes) returns (r: Outcome)
      modifies this`nextMessageId, this`sequenceNumber, this`layerStrategy, socket`outgoing
      ensures nextMessageId == old(nextMessageId) + 1
      ensures r == Raised(NoLayer) <==> bound && signing && old(layerStrategy) == None
      ensures old(LayerReady()) <==> LayerReady()
      ensures r.Ok? ==> socket.outgoing == old(socket.outgoing) + r.data
      ensures r.Raised? ==> socket.outgoing == old(socket.outgoing)
      ensures !(bound && signing) ==>
                && r == Ok(encode(old(nextMessageId), request))
                && layerStrategy == old(layerStrategy) && sequenceNumber == old(sequenceNumber)
      ensures bound && signing && old(layerStrategy).Some? ==>
                var (wrapped, after) := env.layer.wrap(old(layerStrategy).value, encode(old(nextMessageId), request));
                && layerStrategy == Some(after)
                && (r.Ok? <==> wrapped.Some? && Frame(wrapped.value).Some?)
                && (r.Ok? ==> r.data == Frame(wrapped.value).value)
                && sequenceNumber == old(sequenceNumber) + (if r.Ok? then 1 else 0)
      ensures r == Raised(NoLayer) ==> layerStrategy == None && sequenceNumber == old(sequenceNumber)
    {
      var data := encode(nextMessageId, request);
      nextMessageId := nextMessageId + 1;
      r := Ok(data);
      if bound && signing {
        r := Encrypt(data);
        if r.Raised? {
          return;
        }
        sequenceNumber := sequenceNumber + 1;
      }
      socket.Send(r.data);
    }

    // mark_bound
    method MarkBound(strategy: Option<S>)
      modifies this`layerStrategy, this`bound
      ensures bound && layerStrategy == strategy
    {
      layerStrategy := strategy;
      bound := true;
    }

    // send_bind: one message each way.
    method SendBind<Q, R>(server: Server<Q, R>, request: Q) returns (reply: R)
      modifies this`nextMessageId, server
      ensures server.asked == old(server.asked) + [request]
      ensures reply == server.answer(server.asked)
      ensures nextMessageId == old(nextMessageId) + 1
    {
      nextMessageId := nextMessageId + 1;
      reply := server.Ask(request);
    }
  }

  // What reading one unit returns, and what it leaves.
  function UnitOf(p: Parsed): Outcome {
    match p
    case Parsed(_, unit, _) => Ok(unit)
    case Truncated => Raised(ConnectionClosed)
    case NotLdap => Raised(NotAnLdapMessage)
  }

  function Beyond(p: Parsed, stream: bytes): bytes {
    if p.Parsed? then p.rest else stream
  }

  // Decisions taken on a prefix of the stream are those for the whole of it.
  lemma PlainPrefix(buf: bytes, more: bytes)
    ensures MessageLength(buf).Some? ==> MessageLength(buf + more) == MessageLength(buf)
    ensures MessageLength(buf) == None && |buf| >= 6 ==> MessageLength(buf + more) == None
    ensures more == [] ==> buf + more == buf
  {
    if MessageLength(buf).Some? {
      SizeIsStable(buf, more);
    } else if |buf| >= 6 {
      SixOctetsSettle(buf, more);
    }
  }

  // Two transports with one stream ahead of them, cut up differently, read the
  // same response and stay in agreement for the next one.
  method ReadTwice<S(!new)>(t: LDAPTransport<S>, u: LDAPTransport<S>) returns (r: Option<Outcome>, q: Option<Outcome>)
    requires t.socket.Valid() && u.socket.Valid()
    requires t.bound == u.bound && t.signing == u.signing && t.env == u.env
    requires t != u && t.socket != u.socket
    requires t.layerStrategy == u.layerStrategy && t.Unread() == u.Unread()
    modifies t`saslBuf, t`layerStrategy, t.socket`incoming, u`saslBuf, u`layerStrategy, u.socket`incoming
    ensures r == q && t.layerStrategy == u.layerStrategy && t.Unread() == u.Unread()
  {
    r := t.RecvRaw();
    q := u.RecvRaw();
  }
}

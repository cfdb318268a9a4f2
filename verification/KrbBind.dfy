// The two Kerberos bind flows: the bounded GSS-SPNEGO loop (RFC 4178) and the
// branching GSSAPI exchange (RFC 4752, sections 3.1 to 3.3).

module KrbBind {
  import opened Bytes
  import opened Binding
  import opened Transport
  import opened KrbTokens
  import Der

  // Everything settled before the first request: the AP-REQ and the keys it
  // established. openApRep decrypts an AP-REP body: it may raise, and the
  // acceptor may or may not have put a subkey in it. known is the table of
  // encryption types the library supports.
  datatype Context = Context(
    prim: Primitives,
    apReq: bytes,
    subkey: Option<Key>,
    sessionKey: Key,
    openApRep: bytes -> Option<Option<Key>>,
    known: nat -> bool)
  {
    // The key the AP-REQ itself established.
    function Proposed(): Key { subkey.GetOr(sessionKey) }
  }

  datatype Kind = ApRep | WrapToken | Unknown

  // split_krb_token: from either framing.
  function SplitToken(prim: Primitives, token: bytes): (bytes, bytes) {
    var inner := prim.parseEnvelope(token).GetOr(token);
    (Take(inner, 2), Drop(inner, 2))
  }

  // classify_server_token
  function Classify(prim: Primitives, token: bytes): Kind {
    var id := SplitToken(prim, token).0;
    if id == [2, 0] then ApRep
    else if id == [5, 4] || id == [2, 1] then WrapToken
    else Unknown
  }

  // decrypt_ap_rep: the acceptor's subkey, or the session key if it sent none.
  function DecryptApRep(ctx: Context, token: bytes): Option<Key> {
    var (id, body) := SplitToken(ctx.prim, token);
    if id != [2, 0] then None
    else match ctx.openApRep(body)
      case None => None
      case Some(k) => Some(k.GetOr(ctx.sessionKey))
  }

  // build_kerberos_layer_strategy, and what becomes of it in mark_bound.
  function Strategy(choice: Choice, key: Key, startSeq: nat): Option<State> {
    if choice == Plain then None else Some(State(Initiator, key, choice == SignSeal, startSeq))
  }

  // ---- GSS-SPNEGO ----

  datatype SpnegoRequest = NegTokenInit(mechToken: Option<bytes>) | NegTokenResp(responseToken: bytes)

  const MAX_ROUNDS: nat := 4

  // The AP-REP a reply carries, if any.
  function ApRepIn(ctx: Context, r: Reply): Option<bytes> {
    var token := Der.TokenOf(r.creds);
    if token.Some? && Classify(ctx.prim, token.value) == ApRep then token else None
  }

  // The latest AP-REP among the first n replies.
  function LastApRep(ctx: Context, answer: seq<SpnegoRequest> -> Reply, asked: seq<SpnegoRequest>, n: nat)
    : Option<bytes>
    requires n <= |asked|
  {
    if n == 0 then None
    else
      var here := ApRepIn(ctx, ReplyTo(answer, asked, n));
      if here.Some? then here else LastApRep(ctx, answer, asked, n - 1)
  }

  // The per-message key: the AP-REP's where one was seen, else the proposed.
  function SpnegoKey(ctx: Context, answer: seq<SpnegoRequest> -> Reply, asked: seq<SpnegoRequest>): Option<Key> {
    match LastApRep(ctx, answer, asked, |asked|)
    case None => Some(ctx.Proposed())
    case Some(token) => DecryptApRep(ctx, token)
  }

  // Requests of a run: the AP-REQ rides on the first, or when deferred on the
  // second; every other token is empty.
  predicate SpnegoShape(asked: seq<SpnegoRequest>, apReq: bytes, deferred: bool) {
    && 1 <= |asked| <= 5
    && asked[0] == NegTokenInit(if deferred then None else Some(apReq))
    && (forall i :: 1 <= i < |asked| ==> asked[i] == NegTokenResp(if i == 1 && deferred then apReq else []))
  }

  lemma StableReplies<Q, R>(answer: seq<Q> -> R, asked: seq<Q>, q: Q)
    ensures forall i :: 1 <= i <= |asked| ==> ReplyTo(answer, asked + [q], i) == ReplyTo(answer, asked, i)
  {
    forall i | 1 <= i <= |asked| ensures ReplyTo(answer, asked + [q], i) == ReplyTo(answer, asked, i) {
      assert (asked + [q])[..i] == asked[..i];
    }
  }

  lemma {:induction false} StableApRep(ctx: Context, answer: seq<SpnegoRequest> -> Reply,
                                       asked: seq<SpnegoRequest>, q: SpnegoRequest, n: nat)
    requires n <= |asked|
    ensures LastApRep(ctx, answer, asked + [q], n) == LastApRep(ctx, answer, asked, n)
  {
    StableReplies(answer, asked, q);
    if n > 0 {
      StableApRep(ctx, answer, asked, q, n - 1);
    }
  }

  // _bind_spnego_krb, against every server. It asks at most five times; goes on
  // exactly while told to; and accepts if and only if one of the first four
  // replies is success and any AP-REP seen verifies. Only then is the
  // transport bound, under the right key, with numbering from zero.
  method BindSpnego(t: LDAPTransport<State>, server: Server<SpnegoRequest, Reply>,
                    ctx: Context, choice: Choice, deferred: bool) returns (r: Bind)
    requires server.asked == [] && !t.bound && t.signing == (choice != Plain) && choice != SealOnly
    modifies t`nextMessageId, t`layerStrategy, t`bound, server
    ensures SpnegoShape(server.asked, ctx.apReq, deferred)
    ensures InProgressUpTo(server.answer, server.asked, |server.asked| - 1)
    ensures |server.asked| <= 4 ==>
              ReplyTo(server.answer, server.asked, |server.asked|).code != InProgress
    ensures var key := SpnegoKey(ctx, server.answer, server.asked);
            r == Accepted <==>
              && |server.asked| <= 4
              && ReplyTo(server.answer, server.asked, |server.asked|).code == Success
              && key.Some? && ctx.known(key.value.enctype)
    ensures var key := SpnegoKey(ctx, server.answer, server.asked);
            r == Failed <==>
              && |server.asked| <= 4
              && ReplyTo(server.answer, server.asked, |server.asked|).code == Success
              && key.Some? && !ctx.known(key.value.enctype)
    ensures r == Accepted ==>
              && t.bound && t.LayerReady()
              && t.layerStrategy == Strategy(choice, SpnegoKey(ctx, server.answer, server.asked).value, 0)
    ensures r != Accepted ==> !t.bound && t.layerStrategy == old(t.layerStrategy)
    ensures t.nextMessageId == old(t.nextMessageId) + |server.asked|
  {
    hide Der.TokenOf, DecryptApRep, Classify, Context.Proposed;
    var sentApReq := !deferred;
    var reply := t.SendBind(server, NegTokenInit(if sentApReq then Some(ctx.apReq) else None));
    var apRep: Option<bytes> := None;
    var round := 0;
    var done := false;
    assert server.asked[..1] == server.asked;
    while round < MAX_ROUNDS && !done
      invariant round <= MAX_ROUNDS
      invariant |server.asked| == round + 1
      invariant SpnegoShape(server.asked, ctx.apReq, deferred)
      invariant sentApReq <==> !deferred || |server.asked| > 1
      invariant InProgressUpTo(server.answer, server.asked, round)
      invariant reply == ReplyTo(server.answer, server.asked, |server.asked|)
      invariant apRep == LastApRep(ctx, server.answer, server.asked, if done then |server.asked| else round)
      invariant done ==> round < MAX_ROUNDS && reply.code == Success
      invariant !t.bound && t.layerStrategy == old(t.layerStrategy)
      invariant t.nextMessageId == old(t.nextMessageId) + |server.asked|
      decreases MAX_ROUNDS - round, !done
    {
      var inner := Der.SpnegoResponseToken(reply.creds);
      if inner.Some? && Classify(ctx.prim, inner.value) == ApRep {
        apRep := inner;
      }
      if reply.code == Success {
        done := true;
      } else if reply.code != InProgress {
        return Refused;
      } else {
        ghost var before := server.asked;
        var next := NegTokenResp(if sentApReq then [] else ctx.apReq);
        sentApReq := true;
        reply := t.SendBind(server, next);
        StableReplies(server.answer, before, next);
        StableApRep(ctx, server.answer, before, next, |before|);
        assert server.asked[..|server.asked|] == server.asked;
        round := round + 1;
      }
    }
    if !done {
      return Refused;
    }
    var key := ctx.Proposed();
    if apRep.Some? {
      var fromServer := DecryptApRep(ctx, apRep.value);
      if fromServer == None {
        return Refused;
      }
      key := fromServer.value;
    }
    if !ctx.known(key.enctype) {
      return Failed;
    }
    t.MarkBound(Strategy(choice, key, 0));
    r := Accepted;
  }

  // How many requests carry the AP-REQ.
  function ApReqsSent(asked: seq<SpnegoRequest>, apReq: bytes): nat {
    if asked == [] then 0
    else (if asked[0] == NegTokenInit(Some(apReq)) || asked[0] == NegTokenResp(apReq) then 1 else 0)
         + ApReqsSent(asked[1..], apReq)
  }

  // The AP-REQ goes out at most once, and exactly once unless a deferred bind
  // ended on its first reply.
  lemma ApReqGoesOutOnce(asked: seq<SpnegoRequest>, apReq: bytes, deferred: bool)
    requires SpnegoShape(asked, apReq, deferred) && apReq != []
    ensures ApReqsSent(asked, apReq) == if deferred && |asked| == 1 then 0 else 1
  {
    if |asked| > 1 {
      if deferred {
        EmptyTokensCarryNothing(asked[1..][1..], apReq);
      } else {
        EmptyTokensCarryNothing(asked[1..], apReq);
      }
    }
  }

  lemma {:induction false} EmptyTokensCarryNothing(asked: seq<SpnegoRequest>, apReq: bytes)
    requires apReq != [] && forall i :: 0 <= i < |asked| ==> asked[i] == NegTokenResp([])
    ensures ApReqsSent(asked, apReq) == 0
  {
    if asked != [] {
      EmptyTokensCarryNothing(asked[1..], apReq);
    }
  }

  // ---- GSSAPI ----

  // Credentials of a bind request; None is the empty continuation.
  type GssapiRequest = Option<bytes>

  // What the first in-progress reply holds.
  datatype FirstReply = EmptyCreds | ApRepCreds | OfferCreds | OtherCreds

  function FirstKind(ctx: Context, creds: bytes): FirstReply {
    if creds == [] then EmptyCreds
    else match Classify(ctx.prim, creds)
      case ApRep => ApRepCreds
      case WrapToken => OfferCreds
      case Unknown => OtherCreds
  }

  // The key for the security-layer exchange and all traffic after it: the
  // AP-REP's if the first reply was one, else the one the AP-REQ established.
  function GssapiKey(ctx: Context, creds: bytes): Option<Key> {
    if FirstKind(ctx, creds) == ApRepCreds then DecryptApRep(ctx, creds) else Some(ctx.Proposed())
  }

  // The server's security-layer offer, opened under a key.
  function OpenOffer(ctx: Context, key: Key, offer: bytes): Option<bytes> {
    if key.enctype == RC4_HMAC then
      match ctx.prim.parseEnvelope(offer)
      case None => None
      case Some(inner) => VerifyRc4(ctx.prim, key, inner)
    else VerifyUnsealed(ctx.prim, key, Acceptor, offer)
  }

  function Bitmask(choice: Choice): byte
    requires choice != SealOnly
  {
    match choice
    case Plain => 1
    case SignOnly => 2
    case SignSeal => 4
  }

  // The layer picked, and the server's own maximum buffer echoed.
  function ReplyPayload(choice: Choice, payload: bytes): bytes
    requires choice != SealOnly
  {
    [Bitmask(choice)] + (if |payload| >= 4 then payload[1..4] else [0, 0, 0])
  }

  // The reply is an unsealed token under number 0.
  function ReplyToken(ctx: Context, key: Key, choice: Choice, payload: bytes): bytes
    requires choice != SealOnly
  {
    SealMessage(ctx.prim, State(Initiator, key, false, 0), ReplyPayload(choice, payload)).value
  }

  function FirstToken(ctx: Context): bytes { ctx.prim.envelope([1, 0] + ctx.apReq) }

  // The key serves the security-layer exchange and the offer verifies under it.
  predicate Opens(ctx: Context, key: Key, offer: bytes) {
    ctx.known(key.enctype) && OpenOffer(ctx, key, offer).Some?
  }

  // The requests a server gets are settled by its own answers. The client goes
  // on after the first reply exactly when that is in progress and holds nothing
  // unusable: nothing at all or an AP-REP that verifies, which it continues
  // with empty credentials, or an offer that opens, which it answers; and
  // after the continuation exactly when an offer comes that opens.
  predicate Conversation(ctx: Context, choice: Choice, answer: seq<GssapiRequest> -> Reply, asked: seq<GssapiRequest>)
    requires choice != SealOnly
  {
    && 1 <= |asked| <= 3 && asked[0] == Some(FirstToken(ctx))
    && var first := answer([Some(FirstToken(ctx))]);
       var kind, key := FirstKind(ctx, first.creds), GssapiKey(ctx, first.creds);
    && (|asked| > 1 <==>
          && first.code == InProgress && kind != OtherCreds && key.Some?
          && (kind == OfferCreds ==> Opens(ctx, key.value, first.creds)))
    && (|asked| > 1 && kind == OfferCreds ==>
          |asked| == 2 && asked[1] == Some(ReplyToOffer(ctx, key.value, choice, first.creds)))
    && (|asked| > 1 && kind != OfferCreds ==>
          var second := answer([Some(FirstToken(ctx)), None]);
          && asked[1] == None
          && (|asked| == 3 <==> second.code == InProgress && Opens(ctx, key.value, second.creds))
          && (|asked| == 3 ==> asked[2] == Some(ReplyToOffer(ctx, key.value, choice, second.creds))))
  }

  function ReplyToOffer(ctx: Context, key: Key, choice: Choice, offer: bytes): bytes
    requires Opens(ctx, key, offer) && choice != SealOnly
  {
    ReplyToken(ctx, key, choice, OpenOffer(ctx, key, offer).value)
  }

  // So a server meets one conversation, and whether it is accepted is a
  // function of its answers.
  lemma ConversationIsSettled(ctx: Context, choice: Choice, answer: seq<GssapiRequest> -> Reply,
                              asked: seq<GssapiRequest>, other: seq<GssapiRequest>)
    requires choice != SealOnly
    requires Conversation(ctx, choice, answer, asked) && Conversation(ctx, choice, answer, other)
    ensures asked == other
  {
    hide FirstKind, GssapiKey, Opens, ReplyToOffer;
    assert |asked| == |other|;
  }

  // A server may conclude at once: proposed key, traffic from zero.
  predicate AcceptedAtOnce(ctx: Context, answer: seq<GssapiRequest> -> Reply, asked: seq<GssapiRequest>) {
    |asked| == 1 && ReplyTo(answer, asked, 1).code == Success && ctx.known(ctx.Proposed().enctype)
  }

  // Or after the security-layer exchange, all of it under one key. The empty
  // continuation is there exactly when the first reply was empty or an AP-REP.
  predicate AcceptedInRounds(ctx: Context, choice: Choice, answer: seq<GssapiRequest> -> Reply,
                             asked: seq<GssapiRequest>)
    requires choice != SealOnly
  {
    && 2 <= |asked| <= 3
    && var first := ReplyTo(answer, asked, 1);
       var kind, key := FirstKind(ctx, first.creds), GssapiKey(ctx, first.creds);
    && first.code == InProgress && kind != OtherCreds
    && (|asked| == 2 <==> kind == OfferCreds)
    && (|asked| == 3 ==> asked[1] == None && ReplyTo(answer, asked, 2).code == InProgress)
    && key.Some? && ctx.known(key.value.enctype)
    && var payload := OpenOffer(ctx, key.value, ReplyTo(answer, asked, |asked| - 1).creds);
    && payload.Some?
    && asked[|asked| - 1] == Some(ReplyToken(ctx, key.value, choice, payload.value))
    && ReplyTo(answer, asked, |asked|).code == Success
  }

  // An exception, as against a refusal, comes of a key of an unsupported type,
  // or of an offer under an RC4 key that is not in an envelope.
  predicate RaisesInBind(ctx: Context, answer: seq<GssapiRequest> -> Reply, asked: seq<GssapiRequest>) {
    1 <= |asked| <= 2
    && var first, latest := ReplyTo(answer, asked, 1), ReplyTo(answer, asked, |asked|);
       var kind, key := FirstKind(ctx, first.creds), GssapiKey(ctx, first.creds);
    if |asked| == 1 && first.code == Success then !ctx.known(ctx.Proposed().enctype)
    else
      && first.code == latest.code == InProgress && key.Some?
      && (if |asked| == 1 then kind == OfferCreds else kind == EmptyCreds || kind == ApRepCreds)
      && (ctx.known(key.value.enctype) ==>
            key.value.enctype == 23 && ctx.prim.parseEnvelope(latest.creds) == None)
  }

  // _bind_gssapi_krb, against every server: accepted in one of the two shapes
  // and no other, bound only after success, traffic continuing the numbers and
  // the key of the exchange.
  method BindGssapi(t: LDAPTransport<State>, server: Server<GssapiRequest, Reply>, ctx: Context, choice: Choice)
    returns (r: Bind)
    requires server.asked == [] && !t.bound && t.signing == (choice != Plain) && choice != SealOnly
    modifies t`nextMessageId, t`layerStrategy, t`bound, server
    ensures Conversation(ctx, choice, server.answer, server.asked)
    ensures r == Accepted <==>
              || AcceptedAtOnce(ctx, server.answer, server.asked)
              || AcceptedInRounds(ctx, choice, server.answer, server.asked)
    ensures r == Failed <==> RaisesInBind(ctx, server.answer, server.asked)
    ensures r == Accepted ==>
              && t.bound && t.LayerReady()
              && t.layerStrategy ==
                 (if |server.asked| == 1 then Strategy(choice, ctx.Proposed(), 0)
                  else Strategy(choice, GssapiKey(ctx, ReplyTo(server.answer, server.asked, 1).creds).value, 1))
    ensures r != Accepted ==> !t.bound && t.layerStrategy == old(t.layerStrategy)
    ensures t.nextMessageId == old(t.nextMessageId) + |server.asked|
  {
    hide OpenOffer, ReplyToken, DecryptApRep, FirstKind, FirstToken, Context.Proposed;
    var key := ctx.Proposed();
    var reply := t.SendBind(server, Some(FirstToken(ctx)));
    assert server.asked[..1] == server.asked == [Some(FirstToken(ctx))];
    if reply.code == Success {
      if !ctx.known(key.enctype) {
        return Failed;
      }
      t.MarkBound(Strategy(choice, key, 0));
      return Accepted;
    }
    if reply.code != InProgress {
      return Refused;
    }
    var kind := FirstKind(ctx, reply.creds);
    if kind == OtherCreds {
      return Refused;
    }
    if kind == ApRepCreds {
      var fromServer := DecryptApRep(ctx, reply.creds);
      if fromServer == None {
        return Refused;
      }
      key := fromServer.value;
    }
    ghost var first := server.asked;
    var offer := reply.creds;
    if kind != OfferCreds {
      reply := t.SendBind(server, None);
      StableReplies(server.answer, first, None);
      assert server.asked[..2] == server.asked == [Some(FirstToken(ctx)), None];
      if reply.code != InProgress {
        return Refused;
      }
      offer := reply.creds;
    }
    if !ctx.known(key.enctype) {
      return Failed;
    }
    var payload := OpenOffer(ctx, key, offer);
    if payload == None {
      // Parsing the envelope is the one step outside the try block.
      return if key.enctype == RC4_HMAC && ctx.prim.parseEnvelope(offer) == None then Failed else Refused;
    }
    var token := Some(ReplyToken(ctx, key, choice, payload.value));
    ghost var before := server.asked;
    reply := t.SendBind(server, token);
    StableReplies(server.answer, before, token);
    assert server.asked[..|server.asked|] == server.asked;
    if reply.code != Success {
      return Refused;
    }
    t.MarkBound(Strategy(choice, key, 1));
    r := Accepted;
  }
}

// The DIGEST-MD5 bind (RFC 2831, section 2.1): challenge, response, and the
// acknowledgement round a verifying server asks for.

module DigestBind {
  import opened Bytes
  import opened Binding
  import opened Stream
  import opened Transport
  import DigestMd5

  // Here an absent serverSaslCreds differs from an empty one.
  datatype SaslReply = SaslReply(code: Code, creds: Option<bytes>)

  // What the bind reads of a challenge.
  datatype Challenge = Challenge(nonce: string, ciphers: seq<string>)

  datatype Strategy = IntStrategy(integrity: DigestMd5.IntState) | ConfStrategy(conf: DigestMd5.State)

  // parse and respond stand for challenge parsing and the response string;
  // provesServer for the comparison with the expected rspauth; keys for the
  // four keys derived from H(A1).
  datatype Context = Context(
    parse: bytes -> Challenge,
    respond: Challenge -> bytes,
    provesServer: (Challenge, bytes) -> bool,
    keys: Challenge -> DigestMd5.Keys,
    cipher: string)

  function Layer(ctx: Context, choice: Choice, c: Challenge): Option<Strategy>
    requires ctx.keys(c).Valid()
  {
    var k := ctx.keys(c);
    match choice
    case Plain => None
    case SignOnly => Some(IntStrategy(DigestMd5.IntState(k.clientSign, k.serverSign, 0, 0)))
    case _ => Some(ConfStrategy(DigestMd5.Fresh(DigestMd5.KindOf(ctx.cipher), k)))
  }

  // Nothing, integrity under the two signing keys, or confidentiality under all
  // four and the cipher named; each direction numbered from zero and its cipher
  // at its start.
  lemma LayerByChoice(ctx: Context, choice: Choice, c: Challenge)
    requires ctx.keys(c).Valid() && choice != SealOnly
    ensures var k, kind := ctx.keys(c), DigestMd5.KindOf(ctx.cipher);
            Layer(ctx, choice, c)
            == if choice == Plain then None
               else if choice == SignOnly then
                 Some(IntStrategy(DigestMd5.IntState(k.clientSign, k.serverSign, 0, 0)))
               else
                 Some(ConfStrategy(DigestMd5.State(kind, k, 0, 0, DigestMd5.FirstChain(kind, k.clientSeal),
                                                   DigestMd5.FirstChain(kind, k.serverSeal))))
  {
  }

  // A challenge the client can answer: it has a nonce and, for auth-conf,
  // offers the cipher to propose.
  predicate Usable(ctx: Context, choice: Choice, c: Challenge) {
    c.nonce != "" && (choice == SignSeal && ctx.cipher != "" ==> ctx.cipher in c.ciphers)
  }

  // A bind that ran its rounds: challenge answered, server's proof checked
  // where it gave one, success in the end.
  predicate AnsweredChallenge(ctx: Context, choice: Choice, answer: seq<bytes> -> SaslReply, asked: seq<bytes>) {
    && 2 <= |asked| <= 3
    && var first, second := ReplyTo(answer, asked, 1), ReplyTo(answer, asked, 2);
    && first.code == InProgress && first.creds.Some?
    && var c := ctx.parse(first.creds.value);
    && Usable(ctx, choice, c) && asked[1] == ctx.respond(c)
    && (|asked| == 2 ==> second.code == Success)
    && (|asked| == 3 ==>
          && second.code == InProgress
          && (second.creds.Some? ==> ctx.provesServer(c, second.creds.value))
          && asked[2] == []
          && ReplyTo(answer, asked, 3).code == Success)
  }

  // The requests a server gets are settled by its own answers: the challenge is
  // answered exactly when it can be, and the closing round is asked for exactly
  // when the server is still going on and has not failed to prove itself.
  predicate Conversation(ctx: Context, choice: Choice, answer: seq<bytes> -> SaslReply, asked: seq<bytes>) {
    && 1 <= |asked| <= 3 && asked[0] == []
    && var first := answer([[]]);
    && (|asked| > 1 <==>
          && first.code == InProgress && first.creds.Some?
          && var c := ctx.parse(first.creds.value);
          && c.nonce != "" && (choice == SignSeal && ctx.cipher != "" ==> ctx.cipher in c.ciphers))
    && (|asked| > 1 ==>
          var c := ctx.parse(first.creds.value);
          var second := answer([[], ctx.respond(c)]);
          && asked[1] == ctx.respond(c)
          && (|asked| == 3 <==>
                second.code == InProgress && (second.creds.Some? ==> ctx.provesServer(c, second.creds.value)))
          && (|asked| == 3 ==> asked[2] == []))
  }

  // _bind_digest_md5, against every server. It also accepts a success to the
  // very first request, and then binds without any strategy: a bound signing
  // transport is left without a layer exactly when the server answers so.
  method BindDigestMd5(t: LDAPTransport<Strategy>, server: Server<bytes, SaslReply>, ctx: Context, choice: Choice)
    returns (r: Bind)
    requires forall c: Challenge :: ctx.keys(c).Valid()
    requires server.asked == [] && !t.bound && t.layerStrategy == None
    requires choice != SealOnly && t.signing == (choice != Plain)
    modifies t`nextMessageId, t`layerStrategy, t`bound, server
    ensures Conversation(ctx, choice, server.answer, server.asked)
    ensures r == Accepted <==>
              || server.answer([[]]).code == Success
              || AnsweredChallenge(ctx, choice, server.answer, server.asked)
    ensures r == Failed <==> server.answer([[]]).code == InProgress && server.answer([[]]).creds == None
    ensures t.bound <==> r == Accepted
    ensures r == Accepted ==>
              t.layerStrategy == if server.answer([[]]).code == Success then None
                else Layer(ctx, choice, ctx.parse(server.answer([[]]).creds.value))
    ensures !t.LayerReady() <==> choice != Plain && server.answer([[]]).code == Success
    ensures t.nextMessageId == old(t.nextMessageId) + |server.asked|
  {
    var reply := t.SendBind(server, []);
    assert server.asked[..1] == server.asked == [[]];
    if reply.code == Success {
      t.MarkBound(None);
      return Accepted;
    }
    if reply.code != InProgress {
      return Refused;
    }
    if reply.creds == None {
      return Failed;
    }
    var challenge := ctx.parse(reply.creds.value);
    if !Usable(ctx, choice, challenge) {
      return Refused;
    }
    var reply2 := t.SendBind(server, ctx.respond(challenge));
    assert server.asked[..2] == server.asked == [[], ctx.respond(challenge)] && server.asked[..1] == [[]];
    if reply2.code == InProgress {
      if reply2.creds.Some? && !ctx.provesServer(challenge, reply2.creds.value) {
        return Refused;
      }
      var reply3 := t.SendBind(server, []);
      assert server.asked[..3] == server.asked && server.asked[..2] == [[], ctx.respond(challenge)]
          && server.asked[..1] == [[]];
      if reply3.code != Success {
        return Refused;
      }
    } else if reply2.code != Success {
      return Refused;
    }
    t.MarkBound(Layer(ctx, choice, challenge));
    r := Accepted;
  }

  // The failing case, at one server: it says success to whatever it is asked
  // first. The bind is accepted, and the next message cannot be sent.
  method ImmediateSuccessLeavesNoLayer(t: LDAPTransport<Strategy>, ctx: Context, request: bytes)
    returns (bind: Bind, sent: Outcome)
    requires forall c: Challenge :: ctx.keys(c).Valid()
    requires !t.bound && t.layerStrategy == None && t.signing
    modifies t, t.socket
    ensures bind == Accepted && t.bound && t.layerStrategy == None && sent == Raised(NoLayer)
  {
    var server := new Server(asked => SaslReply(Success, None));
    bind := BindDigestMd5(t, server, ctx, SignSeal);
    sent := t.Send(request);
  }
}

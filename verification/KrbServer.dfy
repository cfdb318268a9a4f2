// The Kerberos binds from the server's side: what it reads out of the client's
// requests, and that one which plays by RFC 4752 or RFC 4178 is accepted, under
// the key it chose.

module KrbServer {
  import opened Bytes
  import opened Binding
  import opened KrbTokens
  import opened KrbWire
  import opened KrbBind
  import Der

  // A GSSAPI security-layer message as its receiver opens it.
  function ReadToken(prim: Primitives, key: Key, sealer: Role, token: bytes): Option<bytes> {
    if key.enctype == 23 then
      match prim.parseEnvelope(token)
      case None => None
      case Some(inner) => VerifyRc4(prim, key, inner)
    else VerifyUnsealed(prim, key, sealer, token)
  }

  lemma TokenIsRead(prim: Primitives, role: Role, key: Key, n: nat, p: bytes)
    requires Sound(prim) && n < 0x1_0000_0000
    ensures ReadToken(prim, key, role, TokenUnder(prim, role, key, false, n, p)) == Some(p)
  {
    if key.enctype == 23 {
      ArcfourIsBuilt(prim, key, p, n);
      BuiltRc4Verifies(prim, key, p, n);
      assert EnvelopeInverts(prim, ArcfourToken(prim, key, p, n));
    } else {
      CfxIsBuilt(prim, key, role, 4, p, n);
      TokenVerifies(prim, key, role, 4, p, n);
    }
    hide VerifyRc4, VerifyUnsealed, ArcfourToken, CfxToken, BuildRc4, BuildUnsealed;
  }

  // ---- the security layer picked ----

  // In every run accepted in rounds, the server reads four octets: the one bit
  // of the layer asked for, and its own maximum buffer. Traffic then goes out
  // accordingly: not at all, unsealed, or sealed.
  lemma ServerReadsTheChoice(ctx: Context, choice: Choice, answer: seq<GssapiRequest> -> Reply,
                             asked: seq<GssapiRequest>)
    requires Sound(ctx.prim) && choice != SealOnly && AcceptedInRounds(ctx, choice, answer, asked)
    ensures var key := GssapiKey(ctx, ReplyTo(answer, asked, 1).creds).value;
            var offer := OpenOffer(ctx, key, ReplyTo(answer, asked, |asked| - 1).creds).value;
            var layer := if choice == Plain then 1 else if choice == SignOnly then 2 else 4;
            && asked[|asked| - 1].Some?
            && ReadToken(ctx.prim, key, Initiator, asked[|asked| - 1].value)
               == Some([layer] + if |offer| >= 4 then offer[1..4] else [0, 0, 0])
            && Strategy(choice, key, 1)
               == (if choice == Plain then None else Some(State(Initiator, key, choice == SignSeal, 1)))
  {
    var key := GssapiKey(ctx, ReplyTo(answer, asked, 1).creds).value;
    var offer := OpenOffer(ctx, key, ReplyTo(answer, asked, |asked| - 1).creds).value;
    hide GssapiKey, OpenOffer, ReadToken, SealMessage, TokenUnder, FirstKind;
    SealedUnder(ctx.prim, State(Initiator, key, false, 0), ReplyPayload(choice, offer));
    TokenIsRead(ctx.prim, Initiator, key, 0, ReplyPayload(choice, offer));
  }

  // The client's tokens go out under 0, 1, 2, ... and one key: the
  // security-layer reply under 0, the k-th message after it under k + 1, sealed
  // exactly if confidentiality was asked for.
  lemma NumbersRunFromBindIntoTraffic(ctx: Context, choice: Choice, answer: seq<GssapiRequest> -> Reply,
                                      asked: seq<GssapiRequest>, msgs: seq<bytes>, k: nat)
    requires choice in {SignOnly, SignSeal} && AcceptedInRounds(ctx, choice, answer, asked)
    requires k < |msgs|
    requires NumberFits(GssapiKey(ctx, ReplyTo(answer, asked, 1).creds).value, choice == SignSeal, k + 1)
    ensures var key := GssapiKey(ctx, ReplyTo(answer, asked, 1).creds).value;
            var tokens := WrapAll(ctx.prim, Strategy(choice, key, 1).value, msgs);
            && (exists p :: asked[|asked| - 1] == Some(TokenUnder(ctx.prim, Initiator, key, false, 0, p)))
            && k < |tokens|
            && tokens[k] == TokenUnder(ctx.prim, Initiator, key, choice == SignSeal, k + 1, msgs[k])
  {
    var key := GssapiKey(ctx, ReplyTo(answer, asked, 1).creds).value;
    var offer := OpenOffer(ctx, key, ReplyTo(answer, asked, |asked| - 1).creds).value;
    hide GssapiKey, OpenOffer, SealMessage, TokenUnder, FirstKind, WrapAll;
    SealedUnder(ctx.prim, State(Initiator, key, false, 0), ReplyPayload(choice, offer));
    TrafficIsNumberedWithoutGaps(ctx.prim, Strategy(choice, key, 1).value, msgs, k);
  }

  // ---- a GSSAPI server that plays by the rules ----

  // How the server begins: with an AP-REP that may carry a subkey, with nothing,
  // or with its offer.
  datatype Opening = ByApRep(apRep: bytes, subkey: Option<Key>) | ByNothing | ByOffer

  // The key both sides then share.
  function AgreedKey(ctx: Context, opening: Opening): Key {
    if opening.ByApRep? then opening.subkey.GetOr(ctx.sessionKey)
    else if ctx.subkey.Some? then ctx.subkey.value else ctx.sessionKey
  }

  // The offer: four octets or more under the agreed key and some number.
  function OfferToken(ctx: Context, opening: Opening, n: nat, offer: bytes): bytes {
    TokenUnder(ctx.prim, Acceptor, AgreedKey(ctx, opening), false, n, offer)
  }

  // The envelope is recognised by its tag.
  ghost predicate Marked(prim: Primitives) {
    forall data: bytes :: prim.parseEnvelope(data).Some? ==> Take(data, 1) == [0x60]
  }

  function ClientHello(ctx: Context): GssapiRequest { Some(ctx.prim.envelope([1, 0] + ctx.apReq)) }

  predicate Begins(ctx: Context, opening: Opening, answer: seq<GssapiRequest> -> Reply, n: nat, offer: bytes) {
    match opening
    case ByApRep(apRep, subkey) =>
      && ctx.openApRep(apRep) == Some(subkey)
      && answer([ClientHello(ctx)]) == Reply(InProgress, ctx.prim.envelope([2, 0] + apRep))
      && answer([ClientHello(ctx), None]) == Reply(InProgress, OfferToken(ctx, opening, n, offer))
    case ByNothing =>
      && answer([ClientHello(ctx)]) == Reply(InProgress, [])
      && answer([ClientHello(ctx), None]) == Reply(InProgress, OfferToken(ctx, opening, n, offer))
    case ByOffer =>
      answer([ClientHello(ctx)]) == Reply(InProgress, OfferToken(ctx, opening, n, offer))
  }

  // It ends with success for a reply that picks the layer wanted and repeats its
  // maximum buffer.
  ghost predicate Ends(ctx: Context, opening: Opening, choice: Choice, answer: seq<GssapiRequest> -> Reply,
                       offer: bytes)
  {
    var layer := if choice == Plain then 1 else if choice == SignOnly then 2 else 4;
    var before := if opening == ByOffer then [ClientHello(ctx)] else [ClientHello(ctx), None];
    forall reply: bytes ::
      ReadToken(ctx.prim, AgreedKey(ctx, opening), Initiator, reply)
      == Some([layer] + if |offer| >= 4 then offer[1..4] else [0, 0, 0]) ==>
        answer(before + [Some(reply)]).code == Success
  }

  // What the client makes of the first reply.
  lemma OpeningIsRecognised(ctx: Context, opening: Opening, answer: seq<GssapiRequest> -> Reply,
                            n: nat, offer: bytes)
    requires Sound(ctx.prim) && Marked(ctx.prim) && n < 0x1_0000_0000
    requires Begins(ctx, opening, answer, n, offer)
    ensures var creds := answer([ClientHello(ctx)]).creds;
            && FirstKind(ctx, creds) == (match opening case ByApRep(_, _) => ApRepCreds
                                                       case ByNothing => EmptyCreds case ByOffer => OfferCreds)
            && GssapiKey(ctx, creds) == Some(AgreedKey(ctx, opening))
  {
    var creds := answer([ClientHello(ctx)]).creds;
    match opening
    case ByApRep(apRep, subkey) =>
      ApRepIsRecognised(ctx, apRep);
    case ByNothing =>
    case ByOffer =>
      OfferIsRecognised(ctx, opening, n, offer);
  }

  lemma ApRepIsRecognised(ctx: Context, apRep: bytes)
    requires Sound(ctx.prim)
    ensures var token := ctx.prim.envelope([2, 0] + apRep);
            && token != [] && Classify(ctx.prim, token) == ApRep
            && DecryptApRep(ctx, token)
               == (match ctx.openApRep(apRep) case None => None case Some(k) => Some(k.GetOr(ctx.sessionKey)))
  {
    var inner := [2, 0] + apRep;
    assert EnvelopeInverts(ctx.prim, inner);
    assert Take(inner, 2) == [2, 0] && Drop(inner, 2) == apRep;
  }

  lemma OfferIsRecognised(ctx: Context, opening: Opening, n: nat, offer: bytes)
    requires Sound(ctx.prim) && Marked(ctx.prim) && n < 0x1_0000_0000
    ensures var token := OfferToken(ctx, opening, n, offer);
            token != [] && Classify(ctx.prim, token) == WrapToken
  {
    var key := AgreedKey(ctx, opening);
    var token := OfferToken(ctx, opening, n, offer);
    hide Checksum, Rc4Checksum, SndSeq, Confounder, PackBE, AgreedKey;
    if key.enctype == 23 {
      var inner := ArcfourToken(ctx.prim, key, offer, n);
      assert EnvelopeInverts(ctx.prim, inner);
      assert Take(inner, 2) == [2, 1];
    } else {
      assert Take(token, 1) == [5] && Take(token, 2) == [5, 4];
      assert ctx.prim.parseEnvelope(token) == None;
    }
  }

  lemma OfferOpens(ctx: Context, opening: Opening, n: nat, offer: bytes)
    requires Sound(ctx.prim) && n < 0x1_0000_0000
    ensures OpenOffer(ctx, AgreedKey(ctx, opening), OfferToken(ctx, opening, n, offer)) == Some(offer)
  {
    var key := AgreedKey(ctx, opening);
    TokenIsRead(ctx.prim, Acceptor, key, n, offer);
    hide VerifyRc4, VerifyUnsealed, TokenUnder;
  }

  // Whatever the opening, key type and layer: the client's one conversation with
  // such a server goes through the rounds and is accepted, under the key the
  // server chose.
  lemma HonestServerIsAccepted(ctx: Context, opening: Opening, choice: Choice, answer: seq<GssapiRequest> -> Reply,
                               n: nat, offer: bytes, asked: seq<GssapiRequest>)
    requires Sound(ctx.prim) && Marked(ctx.prim) && n < 0x1_0000_0000 && choice != SealOnly
    requires ctx.known(AgreedKey(ctx, opening).enctype)
    requires Begins(ctx, opening, answer, n, offer) && Ends(ctx, opening, choice, answer, offer)
    requires Conversation(ctx, choice, answer, asked)
    ensures |asked| == (if opening == ByOffer then 2 else 3)
    ensures AcceptedInRounds(ctx, choice, answer, asked)
    ensures GssapiKey(ctx, ReplyTo(answer, asked, 1).creds) == Some(AgreedKey(ctx, opening))
  {
    hide AgreedKey, OfferToken, OpenOffer, GssapiKey, FirstKind, ReplyToken, Ends, Conversation, Sound, Marked;
    OpeningIsRecognised(ctx, opening, answer, n, offer);
    OfferOpens(ctx, opening, n, offer);
    ReplyIsWelcome(ctx, opening, choice, answer, offer);
    RoundsAreAsked(ctx, opening, choice, answer, n, offer, asked);
    assert asked[..1] == [ClientHello(ctx)] && asked[..|asked|] == asked;
    assert asked[..|asked| - 1] == if opening == ByOffer then [ClientHello(ctx)] else [ClientHello(ctx), None];
  }

  lemma ReplyIsWelcome(ctx: Context, opening: Opening, choice: Choice,
                       answer: seq<GssapiRequest> -> Reply, offer: bytes)
    requires Sound(ctx.prim) && choice != SealOnly && Ends(ctx, opening, choice, answer, offer)
    ensures var before := if opening == ByOffer then [ClientHello(ctx)] else [ClientHello(ctx), None];
            answer(before + [Some(ReplyToken(ctx, AgreedKey(ctx, opening), choice, offer))]).code == Success
  {
    var key := AgreedKey(ctx, opening);
    hide AgreedKey, ReadToken, SealMessage, TokenUnder, ClientHello;
    SealedUnder(ctx.prim, State(Initiator, key, false, 0), ReplyPayload(choice, offer));
    TokenIsRead(ctx.prim, Initiator, key, 0, ReplyPayload(choice, offer));
  }

  // The client's requests, one for one.
  lemma RoundsAreAsked(ctx: Context, opening: Opening, choice: Choice, answer: seq<GssapiRequest> -> Reply,
                       n: nat, offer: bytes, asked: seq<GssapiRequest>)
    requires choice != SealOnly && Begins(ctx, opening, answer, n, offer) && Conversation(ctx, choice, answer, asked)
    requires ctx.known(AgreedKey(ctx, opening).enctype)
    requires var creds := answer([ClientHello(ctx)]).creds;
             && FirstKind(ctx, creds) == (match opening case ByApRep(_, _) => ApRepCreds
                                                        case ByNothing => EmptyCreds case ByOffer => OfferCreds)
             && GssapiKey(ctx, creds) == Some(AgreedKey(ctx, opening))
    requires OpenOffer(ctx, AgreedKey(ctx, opening), OfferToken(ctx, opening, n, offer)) == Some(offer)
    ensures asked == (if opening == ByOffer then [ClientHello(ctx)] else [ClientHello(ctx), None])
                     + [Some(ReplyToken(ctx, AgreedKey(ctx, opening), choice, offer))]
  {
    hide AgreedKey, OfferToken, OpenOffer, GssapiKey, FirstKind, ReplyToken;
    assert FirstToken(ctx) == ClientHello(ctx).value;
  }

  // ---- GSS-SPNEGO ----

  // A reply's negTokenResp, its lengths in any definite form.
  datatype ServerToken = ServerToken(fields: seq<Der.Field>, seqLength: nat, outerLength: nat) {
    predicate Encodable() {
      && (forall f <- fields :: f.WellFormed())
      && Body().Encodable() && Der.Element(0xA1, outerLength, Body().Encode()).Encodable()
    }

    function Body(): Der.Element
      requires forall f <- fields :: f.WellFormed()
    {
      Der.Element(0x30, seqLength, Der.EncodeFields(fields))
    }

    function Encode(): bytes
      requires Encodable()
    {
      Der.Element(0xA1, outerLength, Body().Encode()).Encode()
    }
  }

  // The AP-REP of the latest reply that carries one decides the key, bare as
  // SPNEGO has it or in its envelope: the acceptor's subkey, or else the session
  // key; one that does not verify leaves none.
  lemma LatestApRepGoverns(ctx: Context, answer: seq<SpnegoRequest> -> Reply, asked: seq<SpnegoRequest>,
                           i: nat, resp: ServerToken, rest: bytes, apRep: bytes, bare: bool)
    requires Sound(ctx.prim) && Marked(ctx.prim) && 1 <= i <= |asked|
    requires resp.Encodable() && ReplyTo(answer, asked, i).creds == resp.Encode() + rest
    requires Der.FirstToken(resp.fields) == Some(if bare then [2, 0] + apRep else ctx.prim.envelope([2, 0] + apRep))
    requires forall j :: i < j <= |asked| ==> ApRepIn(ctx, ReplyTo(answer, asked, j)) == None
    ensures SpnegoKey(ctx, answer, asked)
         == (match ctx.openApRep(apRep) case None => None case Some(k) => Some(k.GetOr(ctx.sessionKey)))
  {
    var token := if bare then [2, 0] + apRep else ctx.prim.envelope([2, 0] + apRep);
    Der.WalkerInvertsEncoder(resp.fields, resp.seqLength, resp.outerLength, rest);
    assert Der.TokenOf(ReplyTo(answer, asked, i).creds) == Some(token);
    hide Der.TokenOf, ServerToken.Encode, ServerToken.Encodable;
    ApRepIsRecognised(ctx, apRep);
    BareApRepIsRecognised(ctx, apRep);
    hide Classify, DecryptApRep, Sound;
    assert ApRepIn(ctx, ReplyTo(answer, asked, i)) == Some(token);
    LatestIs(ctx, answer, asked, i, |asked|);
  }

  lemma BareApRepIsRecognised(ctx: Context, apRep: bytes)
    requires Marked(ctx.prim)
    ensures var token := [2, 0] + apRep;
            && Classify(ctx.prim, token) == ApRep
            && DecryptApRep(ctx, token)
               == (match ctx.openApRep(apRep) case None => None case Some(k) => Some(k.GetOr(ctx.sessionKey)))
  {
    var token := [2, 0] + apRep;
    assert Take(token, 1) == [2];
    assert ctx.prim.parseEnvelope(token) == None;
    assert Take(token, 2) == [2, 0] && Drop(token, 2) == apRep;
  }

  lemma {:induction false} LatestIs(ctx: Context, answer: seq<SpnegoRequest> -> Reply, asked: seq<SpnegoRequest>,
                                    i: nat, n: nat)
    requires 1 <= i <= n <= |asked| && ApRepIn(ctx, ReplyTo(answer, asked, i)).Some?
    requires forall j :: i < j <= n ==> ApRepIn(ctx, ReplyTo(answer, asked, j)) == None
    ensures LastApRep(ctx, answer, asked, n) == ApRepIn(ctx, ReplyTo(answer, asked, i))
  {
    if i < n {
      LatestIs(ctx, answer, asked, i, n - 1);
    }
  }

  // Without any the key the AP-REQ established stands: its subkey, or else the
  // session key.
  lemma {:induction false} NoApRepKeepsTheKey(ctx: Context, answer: seq<SpnegoRequest> -> Reply,
                                              asked: seq<SpnegoRequest>, n: nat)
    requires n <= |asked| && forall j :: 1 <= j <= n ==> ApRepIn(ctx, ReplyTo(answer, asked, j)) == None
    ensures LastApRep(ctx, answer, asked, n) == None
    ensures n == |asked| ==>
              SpnegoKey(ctx, answer, asked) == Some(if ctx.subkey.Some? then ctx.subkey.value else ctx.sessionKey)
  {
    if n > 0 {
      NoApRepKeepsTheKey(ctx, answer, asked, n - 1);
    }
  }

  // Replies without a token, or whose token is of another kind, carry none.
  lemma OtherTokensCarryNoApRep(ctx: Context, r: Reply)
    requires var token := Der.TokenOf(r.creds);
             token.Some? ==> ctx.prim.parseEnvelope(token.value) == None && Take(token.value, 2) != [2, 0]
    ensures ApRepIn(ctx, r) == None
  {
  }
}

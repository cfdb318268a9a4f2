// The three NTLM bind flows - Sicily, GSS-SPNEGO and bare GSSAPI - as step
// machines that end in mark_bound, and the numbers a session's signatures use.

module NtlmBind {
  import opened Bytes
  import opened Binding
  import opened Transport
  import opened NtlmLayer
  import opened NtlmSessions
  import opened NtlmWire
  import opened StreamCipher

  datatype Carrier = Sicily | GssSpnego | GssApi {
    // Whether a first reply with this code carries a challenge to answer.
    predicate GoesOn(code: Code) { code == Success || (!Sicily? && code == InProgress) }
    predicate GssWrapped() { !Sicily? }
    predicate WithMic() { GssSpnego? }
  }

  // What one challenge leads to: the flags both sides agreed on, the exported
  // session key and the AUTHENTICATE_MESSAGE.
  datatype Handshake = Handshake(flags: NtlmFlags, exported: bytes, type3: bytes)

  // challenge digs the CHALLENGE_MESSAGE out of a reply, or raises; complete
  // stands for the library's Type 3 construction.
  datatype Context = Context(
    prim: Primitives,
    type1: bytes,
    challenge: bytes -> Option<bytes>,
    complete: bytes -> Handshake,
    announceMic: bool,
    alwaysSeal: bool)

  datatype Request = Negotiate(type1: bytes) | Authenticate(type3: bytes, mechListMic: Option<bytes>)

  // The fixed DER of a MechTypeList holding just the NTLM OID.
  const MECH_TYPE_LIST: bytes :=
    [0x30, 0x0C, 0x06, 0x0A, 0x2B, 0x06, 0x01, 0x04, 0x01, 0x82, 0x37, 0x02, 0x02, 0x0A]

  // mechListMIC: number 0, off a handle of its own. Without SIGN it is a dummy
  // with a zero checksum; without extended session security there is none.
  function MechListMic(ctx: Context, h: Handshake): Option<bytes> {
    if !h.flags.ess || !(h.flags.sign || ctx.announceMic) then None
    else if h.flags.sign then
      Some(Signature(ctx.prim, true, SealKey(ctx.prim, h.flags, h.exported, Client), 0,
                     ctx.prim.signKey(h.flags, h.exported, Client), 0, MECH_TYPE_LIST))
    else Some(PackLE(1, 4) + [0, 0, 0, 0, 0, 0, 0, 0] + PackLE(0, 4))
  }

  // The strategy a handshake ends in. Traffic starts after the MIC's number.
  function Strategy(ctx: Context, h: Handshake, gssWrapped: bool, micSent: bool): State {
    Fresh(BuildConfig(ctx.prim, h.flags, h.exported, gssWrapped, ctx.alwaysSeal), if micSent then 1 else 0)
  }

  // Where a bind stands when it returns: two requests at most; accepted exactly
  // when both replies allow it; bound only then, with a layer exactly when the
  // method has one.
  ghost predicate Concluded(t: LDAPTransport<State>, server: Server<Request, Reply>, ctx: Context, choice: Choice,
                            carrier: Carrier, r: Bind)
    reads t, server
  {
    && 1 <= |server.asked| <= 2 && server.asked[0] == Negotiate(ctx.type1)
    && var first := ReplyTo(server.answer, server.asked, 1);
       var type2 := ctx.challenge(first.creds);
    && (|server.asked| == 2 <==> carrier.GoesOn(first.code) && type2.Some?)
    && (r == Accepted <==> |server.asked| == 2 && ReplyTo(server.answer, server.asked, 2).code == Success)
    && (|server.asked| == 2 ==>
          var h := ctx.complete(type2.value);
          var mic := if carrier.WithMic() then MechListMic(ctx, h) else None;
          && server.asked[1] == Authenticate(h.type3, mic)
          && (r == Accepted ==>
                t.layerStrategy == if choice == Plain then None
                                   else Some(Strategy(ctx, h, carrier.GssWrapped(), mic.Some?))))
    && (r == Failed <==> |server.asked| == 1 && carrier.GoesOn(first.code))
    && (r == Accepted <==> t.bound)
    && (r != Accepted ==> t.layerStrategy == None)
    && t.LayerReady()
  }

  // The mechListMIC block: a handle of its own is keyed as the strategy's is and
  // signs under number 0. The strategy's two counters move to 1; its two RC4
  // objects are not touched, so its first message starts the keystream.
  method SignMechList(strategy: NTLMLayerStrategy, ctx: Context, h: Handshake, gssWrapped: bool)
    returns (mic: Option<bytes>)
    requires strategy.Valid() && strategy.prim == ctx.prim
    requires strategy.Abstract() == Strategy(ctx, h, gssWrapped, false)
    modifies strategy`sendSeq, strategy`recvSeq
    ensures mic == MechListMic(ctx, h)
    ensures strategy.Abstract() == Strategy(ctx, h, gssWrapped, mic.Some?)
    ensures strategy.clientSealHandle.pos == strategy.serverSealHandle.pos == 0
  {
    if !h.flags.ess || !(h.flags.sign || ctx.announceMic) {
      return None;
    }
    if h.flags.sign {
      var signKey := ctx.prim.signKey(h.flags, h.exported, Client);
      var handle := new Arc4(ctx.prim.keystream, SealKey(ctx.prim, h.flags, h.exported, Client));
      mic := Mac(ctx.prim, h.flags, handle, signKey, 0, MECH_TYPE_LIST);
    } else {
      mic := Some(PackLE(1, 4) + [0, 0, 0, 0, 0, 0, 0, 0] + PackLE(0, 4));
    }
    strategy.sendSeq := 1;
    strategy.recvSeq := 1;
  }

  // The two requests every carrier makes, from the first reply on.
  method Finish(t: LDAPTransport<State>, server: Server<Request, Reply>, ctx: Context, choice: Choice,
                first: Reply, carrier: Carrier) returns (r: Bind)
    requires server.asked == [Negotiate(ctx.type1)] && first == server.answer(server.asked)
    requires carrier.GoesOn(first.code)
    requires !t.bound && t.layerStrategy == None && t.signing == (choice != Plain)
    modifies t`nextMessageId, t`layerStrategy, t`bound, server
    ensures Concluded(t, server, ctx, choice, carrier, r)
    ensures old(server.asked) <= server.asked
    ensures t.nextMessageId == old(t.nextMessageId) + |server.asked| - 1
  {
    var asked := server.asked;
    assert asked[..1] == asked;
    var type2 := ctx.challenge(first.creds);
    if type2 == None {
      return Failed;
    }
    var h := ctx.complete(type2.value);
    var strategy := new NTLMLayerStrategy(ctx.prim, h.flags, h.exported, carrier.GssWrapped(), ctx.alwaysSeal);
    var mic: Option<bytes> := None;
    if carrier.WithMic() {
      mic := SignMechList(strategy, ctx, h, carrier.GssWrapped());
    }
    var active := if choice == Plain then None else Some(strategy.Abstract());
    var request := Authenticate(h.type3, mic);
    var reply := t.SendBind(server, request);
    assert server.asked[..1] == asked && server.asked[..2] == server.asked;
    if reply.code != Success {
      return Refused;
    }
    t.MarkBound(active);
    r := Accepted;
  }

  // _bind_sicily: the first reply has to be success.
  method BindSicily(t: LDAPTransport<State>, server: Server<Request, Reply>, ctx: Context, choice: Choice)
    returns (r: Bind)
    requires server.asked == [] && !t.bound && t.layerStrategy == None && t.signing == (choice != Plain)
    modifies t`nextMessageId, t`layerStrategy, t`bound, server
    ensures Concluded(t, server, ctx, choice, Sicily, r)
    ensures |server.asked| == 2 ==>
              server.answer([Negotiate(ctx.type1)]).code == Success && server.asked[1].mechListMic == None
    ensures t.nextMessageId == old(t.nextMessageId) + |server.asked|
  {
    var reply := t.SendBind(server, Negotiate(ctx.type1));
    assert server.asked[..1] == server.asked;
    if reply.code != Success {
      return Refused;
    }
    r := Finish(t, server, ctx, choice, reply, Sicily);
  }

  // _bind_spnego_ntlm: the one carrier with a mechListMIC.
  method BindSpnego(t: LDAPTransport<State>, server: Server<Request, Reply>, ctx: Context, choice: Choice)
    returns (r: Bind)
    requires server.asked == [] && !t.bound && t.layerStrategy == None && t.signing == (choice != Plain)
    modifies t`nextMessageId, t`layerStrategy, t`bound, server
    ensures Concluded(t, server, ctx, choice, GssSpnego, r)
    ensures |server.asked| == 2 ==> server.answer([Negotiate(ctx.type1)]).code in {Success, InProgress}
    ensures t.nextMessageId == old(t.nextMessageId) + |server.asked|
  {
    var reply := t.SendBind(server, Negotiate(ctx.type1));
    assert server.asked[..1] == server.asked;
    if reply.code != Success && reply.code != InProgress {
      return Refused;
    }
    r := Finish(t, server, ctx, choice, reply, GssSpnego);
  }

  // _bind_gssapi_ntlm
  method BindGssapi(t: LDAPTransport<State>, server: Server<Request, Reply>, ctx: Context, choice: Choice)
    returns (r: Bind)
    requires server.asked == [] && !t.bound && t.layerStrategy == None && t.signing == (choice != Plain)
    modifies t`nextMessageId, t`layerStrategy, t`bound, server
    ensures Concluded(t, server, ctx, choice, GssApi, r)
    ensures |server.asked| == 2 ==>
              && server.answer([Negotiate(ctx.type1)]).code in {Success, InProgress}
              && server.asked[1].mechListMic == None
    ensures t.nextMessageId == old(t.nextMessageId) + |server.asked|
  {
    var reply := t.SendBind(server, Negotiate(ctx.type1));
    assert server.asked[..1] == server.asked;
    if reply.code != Success && reply.code != InProgress {
      return Refused;
    }
    r := Finish(t, server, ctx, choice, reply, GssApi);
  }

  // ---- numbering ----

  // The mechListMIC, octet by octet: with SIGN a signature over the list of the
  // one mechanism under number 0, masked from the start of the client's own
  // keystream; without it a zero checksum; without extended session security,
  // or with neither SIGN nor an announced MIC, nothing.
  lemma MicOctets(ctx: Context, h: Handshake)
    ensures var list := [0x30, 0x0C, 0x06, 0x0A, 0x2B, 0x06, 0x01, 0x04, 0x01, 0x82, 0x37, 0x02, 0x02, 0x0A];
            var key := ctx.prim.sealKey(h.flags, h.exported, Client);
            var sum := Checksum(ctx.prim, true, ctx.prim.signKey(h.flags, h.exported, Client), 0, list);
            MechListMic(ctx, h)
            == if !h.flags.ess || !(h.flags.sign || ctx.announceMic) then None
               else if h.flags.sign then Some([1, 0, 0, 0] + Rc4(ctx.prim.keystream, key, 0, sum) + [0, 0, 0, 0])
               else Some([1, 0, 0, 0] + [0, 0, 0, 0, 0, 0, 0, 0] + [0, 0, 0, 0])
  {
    FourOctets(0);
    FourOctets(1);
    ChecksumIsUnmasked(ctx.prim, true, ctx.prim.signKey(h.flags, h.exported, Client), 0, MECH_TYPE_LIST);
    hide Checksum, Rc4, PackLE;
  }

  // What goes out after an accepted bind with extended session security, in
  // terms of the flags alone. Over Sicily the keystream always runs on; over
  // SPNEGO and GSSAPI it restarts for SEAL without SIGN; and the first number is
  // 1 exactly where SPNEGO took 0 for a MIC.
  lemma TrafficAfterBind(ctx: Context, h: Handshake, carrier: Carrier, calls: seq<Call>, k: nat)
    requires h.flags.ess
    requires var mic := if carrier.WithMic() then MechListMic(ctx, h) else None;
             k < |Wires(ctx.prim, Strategy(ctx, h, carrier.GssWrapped(), mic.Some?), calls)|
    ensures k < |Texts(calls)|
    ensures var mic := if carrier.WithMic() then MechListMic(ctx, h) else None;
            var wire := Wires(ctx.prim, Strategy(ctx, h, carrier.GssWrapped(), mic.Some?), calls)[k];
            var first := if carrier == GssSpnego && (h.flags.sign || ctx.announceMic) then 1 else 0;
            var key := ctx.prim.sealKey(h.flags, h.exported, Client);
            var signKey := ctx.prim.signKey(h.flags, h.exported, Client);
            var sealed := h.flags.seal || (h.flags.sign && ctx.alwaysSeal);
            var p, pos := Texts(calls)[k], Used(Texts(calls), k, sealed);
            wire == if carrier != Sicily && h.flags.seal && !h.flags.sign then
                      Message(ctx.prim, true, ctx.prim.md5(key + PackLE(first + k, 4)), signKey, true,
                              0, |p|, first + k, p)
                    else
                      Message(ctx.prim, true, key, signKey, sealed,
                              pos, pos + (if sealed then |p| else 0), first + k, p)
  {
    hide Message, Wires, Texts, Used, Signature;
    var first := if carrier == GssSpnego && (h.flags.sign || ctx.announceMic) then 1 else 0;
    ModernTraffic(ctx.prim, h.flags, h.exported, carrier != Sicily, ctx.alwaysSeal, Client, true, first, calls, k);
  }

  // Numbers 0, 1, 2, ... are used once each over bind and traffic: by the MIC
  // first, where one is sent, and it leaves the strategy's keystream untouched.
  lemma NumbersStartWithTheMic(ctx: Context, h: Handshake, carrier: Carrier, calls: seq<Call>, k: nat)
    requires h.flags.ess
    requires var mic := if carrier.WithMic() then MechListMic(ctx, h) else None;
             k < |Wires(ctx.prim, Strategy(ctx, h, carrier.GssWrapped(), mic.Some?), calls)|
    ensures var mic := if carrier.WithMic() then MechListMic(ctx, h) else None;
            var s := Strategy(ctx, h, carrier.GssWrapped(), mic.Some?);
            && s.streams == Split(0, 0) && s.sendSeq == s.recvSeq
            && (mic.Some? ==> |mic.value| == 16 && UnpackLE(mic.value[12..16]) == 0)
            && |Wires(ctx.prim, s, calls)[k]| >= 16
            && UnpackLE(Wires(ctx.prim, s, calls)[k][12..16]) == (if mic.Some? then 1 else 0) + k
  {
    var mic := if carrier.WithMic() then MechListMic(ctx, h) else None;
    var s := Strategy(ctx, h, carrier.GssWrapped(), mic.Some?);
    SignaturesCountUp(ctx.prim, s, calls, k);
    if mic.Some? {
      Pow256Values();
      UnpackPackLE(0, 4);
      assert mic.value[12..16] == PackLE(0, 4);
    }
  }
}

// What two mirrored NTLM endpoints keep over whole sessions, where the two
// directions are independent: extended session security, or datagram mode.

module NtlmSessions {
  import opened Bytes
  import opened Ber
  import opened LayerChannel
  import opened NtlmLayer
  import opened StreamCipher

  // The strategy behind the transport's layer interface.
  function NtlmLayerOf(prim: Primitives): Layer<State> {
    Layer((s: State, p: bytes) => Wrap(prim, s, p), (s: State, w: bytes) => Unwrap(prim, s, w))
  }

  // A receiver is ready for a message sealed at v: its inbound key is the
  // sender's; in continuous mode its keystream and number stand where the
  // sender's stood; and the latch, once set, tells sealed from cleartext as
  // the sender does. Datagram receivers need no position and no number.
  predicate Accepts(r: State, v: View) {
    && r.cfg.flags.ess == v.ess && r.cfg.datagram == v.datagram
    && r.cfg.serverSealKey == v.sealKey
    && (r.sealIn.Some? ==> r.sealIn.value == v.sealed)
    && (if v.datagram then v.sealed
        else r.streams.Recv() == v.pos && r.recvSeq == v.seqNum)
  }

  // The latch decides this body correctly, or has been decided already.
  predicate LatchFits(r: State, v: View, wire: bytes) {
    r.sealIn.Some? || (LooksLikeCleartext(Drop(wire, 16)) <==> !v.sealed)
  }

  predicate FullDuplex(s: State) {
    s.Valid() && (s.cfg.flags.ess || s.cfg.datagram)
  }

  // One contract; asked for both directions at once it rules the half-duplex
  // regime out.
  function NtlmContract(prim: Primitives, duplex: bool): Contract<State, View> {
    Contract(
      (s: State) => if duplex then FullDuplex(s) else s.Valid(),
      (s: State) => s.Outbound(),
      (v: View, p: bytes) => SealMessage(prim, v, p),
      (r: State, v: View) => Accepts(r, v),
      (r: State, v: View, wire: bytes) => LatchFits(r, v, wire))
  }

  lemma SealedOnTheWire(prim: Primitives, v: View, p: bytes)
    requires SealMessage(prim, v, p).0.Some?
    ensures var wire := SealMessage(prim, v, p).0.value;
            var key := MessageKey(prim, v.ess, v.datagram, v.sealKey, v.seqNum);
            && |wire| == 16 + |p|
            && Drop(wire, 16) == (if v.sealed then Rc4(prim.keystream, key, if v.datagram then 0 else v.pos, p) else p)
            && (v.ess ==> UnpackLE(Take(wire, 16)[12..16]) == v.seqNum)
  {
    var wire := SealMessage(prim, v, p).0.value;
    var key := MessageKey(prim, v.ess, v.datagram, v.sealKey, v.seqNum);
    var pos := if v.datagram then 0 else v.pos;
    var body := if v.sealed then Rc4(prim.keystream, key, pos, p) else p;
    var after := if v.sealed then pos + |p| else pos;
    var sig := Signature(prim, v.ess, key, if v.datagram && !v.ess then 0 else after, v.signKey, v.seqNum, p);
    assert wire == sig + body;
    assert Take(wire, 16) == sig && Drop(wire, 16) == body;
    if v.ess {
      Pow256Values();
      UnpackPackLE(v.seqNum, 4);
      assert sig[12..16] == PackLE(v.seqNum, 4);
    }
  }

  // A receiver that is ready and latches correctly gets the plaintext back,
  // whatever the regime, and is ready for the sender's next message.
  lemma DeliveredIntact(prim: Primitives, r: State, v: View, p: bytes)
    requires r.Valid() && Accepts(r, v)
    requires SealMessage(prim, v, p).0.Some?
    requires LatchFits(r, v, SealMessage(prim, v, p).0.value)
    ensures var (wire, v') := SealMessage(prim, v, p);
            var (plain, r') := Unwrap(prim, r, wire.value);
            plain == Some(p) && r'.Valid() && Accepts(r', v') && r'.sealIn == Some(v.sealed)
  {
    SealedOnTheWire(prim, v, p);
    var key := MessageKey(prim, v.ess, v.datagram, v.sealKey, v.seqNum);
    Rc4Cancels(prim.keystream, key, if v.datagram then 0 else v.pos, p);
  }

  // Every regime, legacy included, carries one direction.
  lemma NtlmOneWay(prim: Primitives, duplex: bool)
    ensures OneWay(NtlmLayerOf(prim), NtlmContract(prim, duplex))
  {
    var l, c := NtlmLayerOf(prim), NtlmContract(prim, duplex);
    forall s: State, p: bytes ensures WrapAdvances(l, c, s, p) {
      assert l.wrap(s, p) == Wrap(prim, s, p);
    }
    forall r: State, v: View, p: bytes ensures UnwrapReturns(l, c, r, v, p) {
      var (wire, v') := SealMessage(prim, v, p);
      if wire.Some? && c.valid(r) && c.accepts(r, v) && c.fits(r, v, wire.value) {
        DeliveredIntact(prim, r, v, p);
      }
    }
  }

  // The regimes with independent directions meet the whole contract, so all
  // of LayerChannel's session results hold for them.
  lemma NtlmConforms(prim: Primitives)
    ensures Conforms(NtlmLayerOf(prim), NtlmContract(prim, true))
  {
    var l, c := NtlmLayerOf(prim), NtlmContract(prim, true);
    NtlmOneWay(prim, true);
    forall s: State, p: bytes ensures WrapKeepsInbound(l, c, s, p) {
      assert l.wrap(s, p) == Wrap(prim, s, p);
    }
    forall r: State, wire: bytes ensures UnwrapKeepsOutbound(l, c, r, wire) {
      assert l.unwrap(r, wire) == Unwrap(prim, r, wire);
    }
  }

  // Fresh endpoints built from one exported key are ready for each other.
  lemma FreshEndpointsAgree(cfg: Config, peerSealOut: bool, firstSeq: nat)
    requires cfg.Valid() && (cfg.datagram ==> cfg.sealOut && peerSealOut)
    requires cfg.flags.ess || cfg.datagram
    ensures var a, b := Fresh(cfg, firstSeq), Fresh(cfg.Mirror(peerSealOut), firstSeq);
            && FullDuplex(a) && FullDuplex(b)
            && Accepts(b, a.Outbound()) && Accepts(a, b.Outbound())
  {
  }

  // Keystream agreement over every run: any interleaving of sends and
  // deliveries in both directions, peers sealing or not as each sees fit. All
  // that is asked is that each first body latches correctly.
  lemma NtlmSessionIsFaithful(prim: Primitives, cfg: Config, peerSealOut: bool, firstSeq: nat, acts: seq<Action>)
    requires cfg.Valid() && (cfg.datagram ==> cfg.sealOut && peerSealOut)
    requires cfg.flags.ess || cfg.datagram
    requires AllFit(NtlmLayerOf(prim), NtlmContract(prim, true),
                    Opened(Fresh(cfg, firstSeq), Fresh(cfg.Mirror(peerSealOut), firstSeq)), acts)
    ensures var w := Run(NtlmLayerOf(prim), NtlmContract(prim, true),
                         Opened(Fresh(cfg, firstSeq), Fresh(cfg.Mirror(peerSealOut), firstSeq)), acts);
            && w.ab.got <= w.ab.sent && w.ba.got <= w.ba.sent
            && (w.ab.flight == [] ==> w.ab.got == w.ab.sent)
            && (w.ba.flight == [] ==> w.ba.got == w.ba.sent)
            && (!w.down && !cfg.datagram && w.ab.flight == [] ==>
                  w.b.streams.Recv() == w.a.streams.Send() && w.b.recvSeq == w.a.sendSeq)
            && (!w.down && !cfg.datagram && w.ba.flight == [] ==>
                  w.a.streams.Recv() == w.b.streams.Send() && w.a.recvSeq == w.b.sendSeq)
  {
    var l, c := NtlmLayerOf(prim), NtlmContract(prim, true);
    var a, b := Fresh(cfg, firstSeq), Fresh(cfg.Mirror(peerSealOut), firstSeq);
    NtlmConforms(prim);
    FreshEndpointsAgree(cfg, peerSealOut, firstSeq);
    SessionIsFaithful(l, c, a, b, acts);
    ConfigsNeverChange(prim, Opened(a, b), acts);
  }

  lemma StepKeepsConfigs(prim: Primitives, w: Session<State, View>, act: Action)
    ensures var w' := Step(NtlmLayerOf(prim), NtlmContract(prim, true), w, act);
            w'.a.cfg == w.a.cfg && w'.b.cfg == w.b.cfg
  {
    var l, c := NtlmLayerOf(prim), NtlmContract(prim, true);
    if !w.down {
      match act
      case SendFromA(p) => assert l.wrap(w.a, p).1.cfg == w.a.cfg;
      case SendFromB(p) => assert l.wrap(w.b, p).1.cfg == w.b.cfg;
      case DeliverToB =>
        if w.ab.flight != [] {
          assert l.unwrap(w.b, w.ab.flight[0].wire) == Unwrap(prim, w.b, w.ab.flight[0].wire);
        }
      case DeliverToA =>
        if w.ba.flight != [] {
          assert l.unwrap(w.a, w.ba.flight[0].wire) == Unwrap(prim, w.a, w.ba.flight[0].wire);
        }
    }
  }

  lemma {:induction false} ConfigsNeverChange(prim: Primitives, w: Session<State, View>, acts: seq<Action>)
    ensures var w' := Run(NtlmLayerOf(prim), NtlmContract(prim, true), w, acts);
            w'.a.cfg == w.a.cfg && w'.b.cfg == w.b.cfg
    decreases |acts|
  {
    if acts != [] {
      StepKeepsConfigs(prim, w, acts[0]);
      ConfigsNeverChange(prim, Step(NtlmLayerOf(prim), NtlmContract(prim, true), w, acts[0]), acts[1..]);
    }
  }

  // ---- the latch ----

  // What an unlatched receiver makes of a first body: the text if it latches
  // right, and otherwise the sealed octets as they came, or a cleartext body
  // put through the keystream.
  function FirstText(prim: Primitives, r: State, v: View, p: bytes): bytes
    requires SealMessage(prim, v, p).0.Some?
  {
    if LatchFits(r, v, SealMessage(prim, v, p).0.value) then p
    else Rc4(prim.keystream, MessageKey(prim, v.ess, v.datagram, v.sealKey, v.seqNum),
             if v.datagram then 0 else v.pos, p)
  }

  // The first body decides the connection. The receiver's keystream stands
  // where the sender's does afterwards if and only if the detector told sealed
  // from cleartext, an empty body apart; and then the text comes back, else it
  // comes back masked.
  lemma FirstBodyDecides(prim: Primitives, r: State, v: View, p: bytes)
    requires r.Valid() && Accepts(r, v) && r.sealIn == None
    requires SealMessage(prim, v, p).0.Some?
    ensures var (wire, v') := SealMessage(prim, v, p);
            var (plain, r') := Unwrap(prim, r, wire.value);
            && (!v.datagram && p != [] ==> (r'.streams.Recv() == v'.pos <==> LatchFits(r, v, wire.value)))
            && plain == Some(FirstText(prim, r, v, p))
            && (Accepts(r', v') <==> LatchFits(r, v, wire.value))
  {
    SealedOnTheWire(prim, v, p);
    if LatchFits(r, v, SealMessage(prim, v, p).0.value) {
      DeliveredIntact(prim, r, v, p);
    }
  }

  // A sender's messages from view v on.
  function SealRun(prim: Primitives, v: View, msgs: seq<bytes>): Option<seq<bytes>>
    decreases |msgs|
  {
    if msgs == [] then Some([])
    else
      var (wire, v') := SealMessage(prim, v, msgs[0]);
      if wire == None then None
      else match SealRun(prim, v', msgs[1..])
        case None => None
        case Some(more) => Some([wire.value] + more)
  }

  function ViewAfter(prim: Primitives, v: View, msgs: seq<bytes>): View
    decreases |msgs|
  {
    if msgs == [] then v else ViewAfter(prim, SealMessage(prim, v, msgs[0]).1, msgs[1..])
  }

  function UnwrapRun(prim: Primitives, r: State, wires: seq<bytes>): State
    decreases |wires|
  {
    if wires == [] then r else UnwrapRun(prim, Unwrap(prim, r, wires[0]).1, wires[1..])
  }

  function TotalLength(msgs: seq<bytes>): nat {
    if msgs == [] then 0 else |msgs[0]| + TotalLength(msgs[1..])
  }

  // A wrong latch is for good: with each message the two positions drift apart
  // by its whole length, and never come back together.
  lemma {:induction false} WrongLatchNeverRecovers(prim: Primitives, r: State, v: View, msgs: seq<bytes>)
    requires r.Valid() && !v.datagram && !r.cfg.datagram && r.cfg.flags.ess == v.ess
    requires r.sealIn == Some(!v.sealed) && SealRun(prim, v, msgs).Some?
    ensures var r', v' := UnwrapRun(prim, r, SealRun(prim, v, msgs).value), ViewAfter(prim, v, msgs);
            if v.sealed then
              v'.pos - r'.streams.Recv() == v.pos - r.streams.Recv() + TotalLength(msgs)
            else
              r'.streams.Recv() - v'.pos == r.streams.Recv() - v.pos + TotalLength(msgs)
    decreases |msgs|
  {
    if msgs != [] {
      SealedOnTheWire(prim, v, msgs[0]);
      var (wire, v') := SealMessage(prim, v, msgs[0]);
      var r1 := Unwrap(prim, r, wire.value).1;
      var wires := SealRun(prim, v, msgs).value;
      assert wires[0] == wire.value && wires[1..] == SealRun(prim, v', msgs[1..]).value;
      assert |Drop(wire.value, 16)| == |msgs[0]|;
      hide SealMessage, Unwrap;
      WrongLatchNeverRecovers(prim, r1, v', msgs[1..]);
    }
  }

  // A keystream that counts, for concrete sessions.
  function Counting(): Primitives {
    Primitives((key, i) => i % 256, key => key, (ess, key, seqNum, message, i) => 0,
               (flags, key, mode) => key, (flags, key, mode) => key)
  }

  // The failure the detector risks, at one input: a sealed body whose
  // ciphertext happens to read 30 03 02 01 00, the head of an LDAPMessage. It
  // is returned undecrypted, and the receiver stays five octets behind.
  lemma SealedBodyTakenForCleartext()
    ensures var flags := NtlmFlags(true, true, true, false, false, false);
            var cfg := Config(flags, true, false, [], [], [], []);
            var v, r := Fresh(cfg, 0).Outbound(), Fresh(cfg.Mirror(true), 0);
            var p := [0x30, 0x02, 0x00, 0x02, 0x04];
            var (wire, v') := SealMessage(Counting(), v, p);
            && Accepts(r, v) && wire.Some?
            && Unwrap(Counting(), r, wire.value).0 == Some([0x30, 0x03, 0x02, 0x01, 0x00])
            && Unwrap(Counting(), r, wire.value).1.streams.Recv() == 8 && v'.pos == 13
  {
    var flags := NtlmFlags(true, true, true, false, false, false);
    var cfg := Config(flags, true, false, [], [], [], []);
    var v, r := Fresh(cfg, 0).Outbound(), Fresh(cfg.Mirror(true), 0);
    var p: bytes := [0x30, 0x02, 0x00, 0x02, 0x04];
    var c: bytes := [0x30, 0x03, 0x02, 0x01, 0x00];
    SealedOnTheWire(Counting(), v, p);
    hide Signature, SealMessage;
    MaskedByCounting();
    assert Drop(SealMessage(Counting(), v, p).0.value, 16) == c;
    assert LooksLikeCleartext(c);
    FirstBodyDecides(Counting(), r, v, p);
  }

  lemma MaskedByCounting()
    ensures Rc4(Counting().keystream, [], 0, [0x30, 0x02, 0x00, 0x02, 0x04]) == [0x30, 0x03, 0x02, 0x01, 0x00]
  {
    FiveXors();
    hide Xor;
  }

  lemma FiveXors()
    ensures Xor(0x30, 0) == 0x30 && Xor(0x02, 1) == 0x03 && Xor(0x00, 2) == 0x02
    ensures Xor(0x02, 3) == 0x01 && Xor(0x04, 4) == 0x00
  {
  }

  // A cleartext peer that sends LDAPMessages is always latched as such,
  // however it encodes their lengths and however it bundles them.
  lemma CleartextPeerLatches(prim: Primitives, r: State, v: View, m: LdapMessage, rest: bytes)
    requires r.Valid() && Accepts(r, v) && !v.sealed && m.Encodable()
    requires SealMessage(prim, v, m.Encode() + rest).0.Some?
    ensures var (wire, v') := SealMessage(prim, v, m.Encode() + rest);
            && LatchFits(r, v, wire.value)
            && Unwrap(prim, r, wire.value).0 == Some(m.Encode() + rest)
            && Unwrap(prim, r, wire.value).1.sealIn == Some(false)
  {
    SealedOnTheWire(prim, v, m.Encode() + rest);
    EncodedIsDetected(m, rest);
    DeliveredIntact(prim, r, v, m.Encode() + rest);
  }

  ghost predicate OpensWithMessage(p: bytes) {
    exists m: LdapMessage, rest: bytes :: m.Encodable() && p == m.Encode() + rest
  }

  // Ends that send in the clear send LDAPMessages, alone or bundled.
  ghost predicate SpeaksLdap(acts: seq<Action>, aSeals: bool, bSeals: bool) {
    && (forall i :: 0 <= i < |acts| && acts[i].SendFromA? && !aSeals ==> OpensWithMessage(acts[i].p))
    && (forall i :: 0 <= i < |acts| && acts[i].SendFromB? && !bSeals ==> OpensWithMessage(acts[i].p))
  }

  // The latch hypothesis for sealed bodies alone.
  predicate SealedFit(prim: Primitives, w: Session<State, View>, acts: seq<Action>)
    decreases |acts|
  {
    acts == [] || w.down
    || ((acts[0] == DeliverToB && w.a.cfg.sealOut ==> HeadFits(NtlmContract(prim, true), w))
        && (acts[0] == DeliverToA && w.b.cfg.sealOut ==> HeadFits(NtlmContract(prim, true), w.Swapped()))
        && SealedFit(prim, Step(NtlmLayerOf(prim), NtlmContract(prim, true), w, acts[0]), acts[1..]))
  }

  // In flight from a cleartext sender there are only detectable bodies.
  predicate ClearFlights(sender: State, flight: seq<Flight<View>>) {
    !sender.cfg.sealOut ==>
      forall i :: 0 <= i < |flight| ==> !flight[i].view.sealed && LooksLikeCleartext(Drop(flight[i].wire, 16))
  }

  lemma SendKeepsClear(prim: Primitives, w: Session<State, View>, p: bytes)
    requires ClearFlights(w.a, w.ab.flight) && (!w.a.cfg.sealOut ==> OpensWithMessage(p))
    ensures var w' := Send(NtlmLayerOf(prim), NtlmContract(prim, true), w, p);
            ClearFlights(w'.a, w'.ab.flight) && w'.b == w.b && w'.ba == w.ba && w'.a.cfg == w.a.cfg
  {
    var l, c := NtlmLayerOf(prim), NtlmContract(prim, true);
    assert l.wrap(w.a, p) == Wrap(prim, w.a, p) && c.out(w.a) == w.a.Outbound();
    if !w.a.cfg.sealOut && Wrap(prim, w.a, p).0.Some? {
      SealedOnTheWire(prim, w.a.Outbound(), p);
      DetectorIsExact(p);
    }
  }

  // What a cleartext end sends always latches right, so only sealed bodies
  // leave anything to ask of a run.
  lemma {:induction false} ClearBodiesFit(prim: Primitives, w: Session<State, View>, acts: seq<Action>)
    requires ClearFlights(w.a, w.ab.flight) && ClearFlights(w.b, w.ba.flight)
    requires SpeaksLdap(acts, w.a.cfg.sealOut, w.b.cfg.sealOut)
    requires w.a.cfg.sealOut || w.b.cfg.sealOut ==> SealedFit(prim, w, acts)
    ensures AllFit(NtlmLayerOf(prim), NtlmContract(prim, true), w, acts)
    decreases |acts|
  {
    var l, c := NtlmLayerOf(prim), NtlmContract(prim, true);
    if acts != [] && !w.down {
      match acts[0] {
        case SendFromA(p) => SendKeepsClear(prim, w, p);
        case SendFromB(p) => SendKeepsClear(prim, w.Swapped(), p);
        case _ =>
      }
      StepKeepsConfigs(prim, w, acts[0]);
      hide SealMessage, Unwrap, LooksLikeCleartext;
      ClearBodiesFit(prim, Step(l, c, w, acts[0]), acts[1..]);
    }
  }

  // Two ends in the clear: nothing is left to ask, the session is faithful.
  lemma ClearSessionIsFaithful(prim: Primitives, cfg: Config, firstSeq: nat, acts: seq<Action>)
    requires cfg.Valid() && cfg.flags.ess && !cfg.datagram && !cfg.sealOut
    requires SpeaksLdap(acts, false, false)
    ensures var w := Run(NtlmLayerOf(prim), NtlmContract(prim, true),
                         Opened(Fresh(cfg, firstSeq), Fresh(cfg.Mirror(false), firstSeq)), acts);
            && w.ab.got <= w.ab.sent && w.ba.got <= w.ba.sent
            && (w.ab.flight == [] ==> w.ab.got == w.ab.sent)
            && (w.ba.flight == [] ==> w.ba.got == w.ba.sent)
  {
    ClearBodiesFit(prim, Opened(Fresh(cfg, firstSeq), Fresh(cfg.Mirror(false), firstSeq)), acts);
    NtlmSessionIsFaithful(prim, cfg, false, firstSeq, acts);
  }

  // ---- datagram mode ----

  // Once the latch says sealed, a datagram receiver carries no history: any
  // two receivers with one key and one regime read the same wire alike.
  lemma DatagramIgnoresHistory(prim: Primitives, r1: State, r2: State, wrapped: bytes)
    requires r1.cfg.datagram && r2.cfg.datagram && r1.cfg.flags.ess == r2.cfg.flags.ess
    requires r1.cfg.serverSealKey == r2.cfg.serverSealKey
    requires r1.sealIn == r2.sealIn == Some(true)
    ensures Unwrap(prim, r1, wrapped).0 == Unwrap(prim, r2, wrapped).0
    ensures Unwrap(prim, r1, wrapped).1.sealIn == Some(true)
  {
  }

  // Unwrap a list of wires one after another.
  function UnwrapAll(prim: Primitives, r: State, wires: seq<bytes>): seq<Option<bytes>>
    decreases |wires|
  {
    if wires == [] then []
    else [Unwrap(prim, r, wires[0]).0] + UnwrapAll(prim, Unwrap(prim, r, wires[0]).1, wires[1..])
  }

  // A message together with the view its sender sealed it at.
  datatype Sealed = Sealed(view: View, plain: bytes) {
    function Wire(prim: Primitives): Option<bytes> { SealMessage(prim, view, plain).0 }
  }

  // What reaches the receiver, and what it should come to.
  function Arriving(prim: Primitives, sent: seq<Sealed>, arrivals: seq<nat>): seq<bytes>
    requires forall k :: 0 <= k < |sent| ==> sent[k].Wire(prim).Some?
    requires forall j :: 0 <= j < |arrivals| ==> arrivals[j] < |sent|
  {
    if arrivals == [] then []
    else [sent[arrivals[0]].Wire(prim).value] + Arriving(prim, sent, arrivals[1..])
  }

  function Originals(sent: seq<Sealed>, arrivals: seq<nat>): seq<Option<bytes>>
    requires forall j :: 0 <= j < |arrivals| ==> arrivals[j] < |sent|
  {
    if arrivals == [] then [] else [Some(sent[arrivals[0]].plain)] + Originals(sent, arrivals[1..])
  }

  // Whatever arrives of what a datagram sender sent - lost, repeated, in any
  // order - each message decrypts to its own plaintext.
  lemma {:induction false} DatagramSurvivesLossAndReordering(
    prim: Primitives, r: State, sent: seq<Sealed>, arrivals: seq<nat>)
    requires r.Valid() && r.cfg.datagram && r.sealIn == Some(true)
    requires forall k :: 0 <= k < |sent| ==> Accepts(r, sent[k].view)
    requires forall k :: 0 <= k < |sent| ==> sent[k].Wire(prim).Some?
    requires forall j :: 0 <= j < |arrivals| ==> arrivals[j] < |sent|
    ensures UnwrapAll(prim, r, Arriving(prim, sent, arrivals)) == Originals(sent, arrivals)
    decreases |arrivals|
  {
    if arrivals != [] {
      var m := sent[arrivals[0]];
      DeliveredIntact(prim, r, m.view, m.plain);
      var wires := Arriving(prim, sent, arrivals);
      var r' := Unwrap(prim, r, wires[0]).1;
      DatagramSurvivesLossAndReordering(prim, r', sent, arrivals[1..]);
    }
  }
}

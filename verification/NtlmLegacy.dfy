// The legacy NTLM regime (MS-NLMP, section 3.4): without extended session
// security and outside datagram mode, one RC4 stream and one sequence number
// carry both directions. What any interleaving keeps, and exactly when a
// message can still be read.

module NtlmLegacy {
  import Ber
  import opened Bytes
  import opened LayerChannel
  import opened NtlmLayer
  import opened StreamCipher
  import opened NtlmSessions

  predicate HalfDuplex(s: State) {
    s.Valid() && s.cfg.SharesSequence()
  }

  // ---- one endpoint, any calls in any order ----

  // Keystream one call uses: the body if it goes through the handle, and twelve
  // octets of signature unless the call raises before signing.
  function CallCost(s: State, call: Call): nat {
    match call
    case CallWrap(p) => (if s.cfg.sealOut then |p| else 0) + (if s.sendSeq < SEQ_LIMIT then 12 else 0)
    case CallUnwrap(w) =>
      (if s.sealIn.GetOr(!Ber.LooksLikeCleartext(Drop(w, 16))) then |Drop(w, 16)| else 0) + 12
  }

  // State, keystream used and messages handled, over a run of calls.
  function CallAll(prim: Primitives, s: State, calls: seq<Call>): (State, nat, nat)
    decreases |calls|
  {
    if calls == [] then (s, 0, 0)
    else
      var (out, s1) := CallOnce(prim, s, calls[0]);
      var (s', cost, handled) := CallAll(prim, s1, calls[1..]);
      (s', CallCost(s, calls[0]) + cost, (if out.Some? then 1 else 0) + handled)
  }

  // One number serves both directions and counts every message handled, and
  // the shared position is the sum over all of them.
  lemma {:induction false} HalfDuplexInvariant(prim: Primitives, s: State, calls: seq<Call>)
    requires HalfDuplex(s) && s.sendSeq == s.recvSeq
    ensures var (s', cost, handled) := CallAll(prim, s, calls);
            && HalfDuplex(s')
            && s'.sendSeq == s'.recvSeq == s.sendSeq + handled
            && s'.streams.both == s.streams.both + cost
    decreases |calls|
  {
    if calls != [] {
      HalfDuplexInvariant(prim, CallOnce(prim, s, calls[0]).1, calls[1..]);
    }
  }

  // ---- two mirrored endpoints ----

  // A message sent: where the stream stood, and how many of the other side's
  // messages the sender had read by then.
  datatype Sent = Sent(plain: bytes, wire: bytes, pos: nat, seen: nat)

  datatype End = End(st: State, sent: seq<Sent>, got: seq<bytes>)

  datatype Pair = Pair(a: End, b: End, down: bool) {
    function Swapped(): Pair { Pair(b, a, down) }
  }

  function SendOne(prim: Primitives, w: Pair, p: bytes): Pair {
    var (wire, st') := Wrap(prim, w.a.st, p);
    if wire == None then w.(a := w.a.(st := st'), down := true)
    else
      var m := Sent(p, wire.value, w.a.st.streams.Send(), |w.a.got|);
      w.(a := End(st', w.a.sent + [m], w.a.got))
  }

  function DeliverOne(prim: Primitives, w: Pair): Pair {
    if |w.b.got| >= |w.a.sent| then w
    else
      var (plain, st') := Unwrap(prim, w.b.st, w.a.sent[|w.b.got|].wire);
      if plain == None then w.(down := true)
      else w.(b := End(st', w.b.sent, w.b.got + [plain.value]))
  }

  function PairStep(prim: Primitives, w: Pair, act: Action): Pair {
    if w.down then w
    else match act
      case SendFromA(p) => SendOne(prim, w, p)
      case SendFromB(p) => SendOne(prim, w.Swapped(), p).Swapped()
      case DeliverToB => DeliverOne(prim, w)
      case DeliverToA => DeliverOne(prim, w.Swapped()).Swapped()
  }

  function PairRun(prim: Primitives, w: Pair, acts: seq<Action>): Pair
    decreases |acts|
  {
    if acts == [] then w else PairRun(prim, PairStep(prim, w, acts[0]), acts[1..])
  }

  // Keystream the first n messages of a side used.
  function CostUpTo(sent: seq<Sent>, n: nat, sealed: bool): nat
    requires n <= |sent|
  {
    if n == 0 then 0
    else CostUpTo(sent, n - 1, sealed) + (if sealed then |sent[n - 1].plain| else 0) + 12
  }

  lemma {:induction false} CostOfPrefix(sent: seq<Sent>, m: Sent, n: nat, sealed: bool)
    requires n <= |sent|
    ensures CostUpTo(sent + [m], n, sealed) == CostUpTo(sent, n, sealed)
  {
    if n > 0 {
      CostOfPrefix(sent, m, n - 1, sealed);
    }
  }

  lemma {:induction false} CostGrows(sent: seq<Sent>, i: nat, j: nat, sealed: bool)
    requires i <= j <= |sent|
    ensures CostUpTo(sent, i, sealed) + 12 * (j - i) <= CostUpTo(sent, j, sealed)
  {
    if i < j {
      CostGrows(sent, i, j - 1, sealed);
    }
  }

  // Everything about one direction, from a to b. x and y are the position and
  // number both ends started from.
  ghost predicate OneWay(prim: Primitives, x: nat, y: nat, a: End, b: End) {
    && |b.got| <= |a.sent| && |a.got| <= |b.sent|
    && HalfDuplex(a.st) && HalfDuplex(b.st)
    && b.st.cfg.serverSealKey == a.st.cfg.clientSealKey
    && (b.st.sealIn.Some? ==> b.st.sealIn.value == a.st.cfg.sealOut)
    && a.st.sendSeq == a.st.recvSeq == y + |a.sent| + |a.got|
    && a.st.streams.both == x + CostUpTo(a.sent, |a.sent|, a.st.cfg.sealOut)
                              + CostUpTo(b.sent, |a.got|, b.st.cfg.sealOut)
    && (forall k :: 0 <= k < |a.sent| ==> SentFrom(prim, x, a, b, k))
  }

  ghost predicate SentFrom(prim: Primitives, x: nat, a: End, b: End, k: nat)
    requires k < |a.sent|
  {
    var m := a.sent[k];
    && m.seen <= |b.sent|
    && m.pos == x + CostUpTo(a.sent, k, a.st.cfg.sealOut) + CostUpTo(b.sent, m.seen, b.st.cfg.sealOut)
    && |m.wire| == 16 + |m.plain|
    && Drop(m.wire, 16) == if a.st.cfg.sealOut then Rc4(prim.keystream, a.st.cfg.clientSealKey, m.pos, m.plain)
                           else m.plain
  }

  ghost predicate Balanced(prim: Primitives, x: nat, y: nat, w: Pair) {
    w.down || (OneWay(prim, x, y, w.a, w.b) && OneWay(prim, x, y, w.b, w.a))
  }

  // The body about to be delivered to b is latched right.
  predicate NextLatches(w: Pair) {
    |w.b.got| < |w.a.sent| && w.b.st.sealIn == None ==>
      (Ber.LooksLikeCleartext(Drop(w.a.sent[|w.b.got|].wire, 16)) <==> !w.a.st.cfg.sealOut)
  }

  predicate AllLatch(prim: Primitives, w: Pair, acts: seq<Action>)
    decreases |acts|
  {
    acts == [] || w.down
    || ((acts[0] == DeliverToB ==> NextLatches(w))
        && (acts[0] == DeliverToA ==> NextLatches(w.Swapped()))
        && AllLatch(prim, PairStep(prim, w, acts[0]), acts[1..]))
  }

  // Sending more leaves what was sent before where it was.
  lemma SentStaysSent(prim: Primitives, x: nat, a: End, b: End, a': End)
    requires |a'.sent| == |a.sent| + 1 && a'.sent[..|a.sent|] == a.sent
    requires a'.st.cfg == a.st.cfg
    ensures forall k :: 0 <= k < |a.sent| && SentFrom(prim, x, a, b, k) ==> SentFrom(prim, x, a', b, k)
    ensures forall k :: 0 <= k < |b.sent| && SentFrom(prim, x, b, a, k) ==> SentFrom(prim, x, b, a', k)
  {
    var m := a'.sent[|a.sent|];
    assert a'.sent == a.sent + [m];
    forall n: nat, sealed | n <= |a.sent| ensures CostUpTo(a'.sent, n, sealed) == CostUpTo(a.sent, n, sealed) {
      CostOfPrefix(a.sent, m, n, sealed);
    }
  }

  lemma SendKeepsBalance(prim: Primitives, x: nat, y: nat, w: Pair, p: bytes)
    requires !w.down && Balanced(prim, x, y, w)
    ensures Balanced(prim, x, y, SendOne(prim, w, p))
  {
    var w' := SendOne(prim, w, p);
    if !w'.down {
      var a, b, m := w.a, w.b, w'.a.sent[|w.a.sent|];
      var sealed := a.st.cfg.sealOut;
      SealedOnTheWire(prim, a.st.Outbound(), p);
      hide Signature, Rc4, MessageKey;
      CostOfPrefix(a.sent, m, |a.sent|, sealed);
      CostOfPrefix(a.sent, m, |b.got|, sealed);
      SentStaysSent(prim, x, a, b, w'.a);
      assert SentFrom(prim, x, w'.a, b, |a.sent|);
      assert OneWay(prim, x, y, w'.a, b);
      assert OneWay(prim, x, y, b, w'.a);
    }
  }

  lemma DeliverKeepsBalance(prim: Primitives, x: nat, y: nat, w: Pair)
    requires !w.down && Balanced(prim, x, y, w) && NextLatches(w)
    ensures Balanced(prim, x, y, DeliverOne(prim, w)) && !DeliverOne(prim, w).down
  {
    if |w.b.got| < |w.a.sent| {
      var w' := DeliverOne(prim, w);
      assert SentFrom(prim, x, w.a, w.b, |w.b.got|);
      forall k | 0 <= k < |w.a.sent| ensures SentFrom(prim, x, w'.a, w'.b, k) {
        assert SentFrom(prim, x, w.a, w.b, k);
      }
      forall k | 0 <= k < |w.b.sent| ensures SentFrom(prim, x, w'.b, w'.a, k) {
        assert SentFrom(prim, x, w.b, w.a, k);
      }
    }
  }

  lemma {:induction false} EveryRunStaysBalanced(prim: Primitives, x: nat, y: nat, w: Pair, acts: seq<Action>)
    requires Balanced(prim, x, y, w) && AllLatch(prim, w, acts)
    ensures Balanced(prim, x, y, PairRun(prim, w, acts))
    decreases |acts|
  {
    if acts != [] {
      if !w.down {
        match acts[0]
        case SendFromA(p) => SendKeepsBalance(prim, x, y, w, p);
        case SendFromB(p) => SendKeepsBalance(prim, x, y, w.Swapped(), p);
        case DeliverToB => DeliverKeepsBalance(prim, x, y, w);
        case DeliverToA => DeliverKeepsBalance(prim, x, y, w.Swapped());
      }
      EveryRunStaysBalanced(prim, x, y, PairStep(prim, w, acts[0]), acts[1..]);
    }
  }

  function OpenedPair(a: State, b: State): Pair {
    Pair(End(a, [], []), End(b, [], []), false)
  }

  // Keystream of what one end has sent and the other has not received.
  function InFlight(sender: End, receiver: End): int
    requires |receiver.got| <= |sender.sent|
  {
    var sealed := sender.st.cfg.sealOut;
    CostUpTo(sender.sent, |sender.sent|, sealed) - CostUpTo(sender.sent, |receiver.got|, sealed)
  }

  // Conservation, over every interleaving: the two positions differ by exactly
  // the keystream of what is still on the wire, so they agree whenever nothing
  // is, even after messages crossed.
  lemma PositionsBalance(prim: Primitives, cfg: Config, peerSealOut: bool, acts: seq<Action>)
    requires cfg.Valid() && cfg.SharesSequence()
    requires AllLatch(prim, OpenedPair(Fresh(cfg, 0), Fresh(cfg.Mirror(peerSealOut), 0)), acts)
    ensures var w := PairRun(prim, OpenedPair(Fresh(cfg, 0), Fresh(cfg.Mirror(peerSealOut), 0)), acts);
            w.down || (
              && w.a.st.streams.Shared? && w.b.st.streams.Shared?
              && |w.b.got| <= |w.a.sent| && |w.a.got| <= |w.b.sent|
              && w.a.st.streams.both + InFlight(w.b, w.a) == w.b.st.streams.both + InFlight(w.a, w.b)
              && (|w.b.got| == |w.a.sent| && |w.a.got| == |w.b.sent| ==>
                    w.a.st.streams == w.b.st.streams && w.a.st.sendSeq == w.b.st.recvSeq))
  {
    var w := OpenedPair(Fresh(cfg, 0), Fresh(cfg.Mirror(peerSealOut), 0));
    assert Balanced(prim, 0, 0, w);
    EveryRunStaysBalanced(prim, 0, 0, w, acts);
  }

  // The exact condition for reading a message. It is unsealed where it was
  // sealed if and only if its sender had, when sending, already read every
  // message the receiver has sent by now; then the plaintext comes back.
  lemma DeliveryIsAlignedExactlyWhenDrained(prim: Primitives, x: nat, y: nat, w: Pair)
    requires !w.down && Balanced(prim, x, y, w) && NextLatches(w) && |w.b.got| < |w.a.sent|
    ensures var m := w.a.sent[|w.b.got|];
            && (w.b.st.streams.Recv() == m.pos <==> m.seen == |w.b.sent|)
            && (m.seen == |w.b.sent| || !w.a.st.cfg.sealOut ==>
                  Unwrap(prim, w.b.st, m.wire).0 == Some(m.plain))
  {
    var m := w.a.sent[|w.b.got|];
    assert SentFrom(prim, x, w.a, w.b, |w.b.got|);
    CostGrows(w.b.sent, m.seen, |w.b.sent|, w.b.st.cfg.sealOut);
    Rc4Cancels(prim.keystream, w.a.st.cfg.clientSealKey, m.pos, m.plain);
  }

  // ---- discharging the latch hypothesis ----

  // The latch hypothesis for sealed bodies alone.
  predicate SealedLatch(prim: Primitives, w: Pair, acts: seq<Action>)
    decreases |acts|
  {
    acts == [] || w.down
    || ((acts[0] == DeliverToB && w.a.st.cfg.sealOut ==> NextLatches(w))
        && (acts[0] == DeliverToA && w.b.st.cfg.sealOut ==> NextLatches(w.Swapped()))
        && SealedLatch(prim, PairStep(prim, w, acts[0]), acts[1..]))
  }

  predicate ClearSent(a: End) {
    !a.st.cfg.sealOut ==>
      forall k :: 0 <= k < |a.sent| ==> Ber.LooksLikeCleartext(Drop(a.sent[k].wire, 16))
  }

  lemma PairStepKeepsClear(prim: Primitives, w: Pair, p: bytes)
    requires ClearSent(w.a) && (!w.a.st.cfg.sealOut ==> OpensWithMessage(p))
    ensures ClearSent(SendOne(prim, w, p).a)
  {
    if !w.a.st.cfg.sealOut && Wrap(prim, w.a.st, p).0.Some? {
      SealedOnTheWire(prim, w.a.st.Outbound(), p);
      Ber.DetectorIsExact(p);
    }
  }

  // What a cleartext end sends always latches right.
  lemma {:induction false} ClearBodiesLatch(prim: Primitives, w: Pair, acts: seq<Action>)
    requires ClearSent(w.a) && ClearSent(w.b)
    requires SpeaksLdap(acts, w.a.st.cfg.sealOut, w.b.st.cfg.sealOut)
    requires w.a.st.cfg.sealOut || w.b.st.cfg.sealOut ==> SealedLatch(prim, w, acts)
    ensures AllLatch(prim, w, acts)
    decreases |acts|
  {
    if acts != [] && !w.down {
      match acts[0] {
        case SendFromA(p) => PairStepKeepsClear(prim, w, p);
        case SendFromB(p) => PairStepKeepsClear(prim, w.Swapped(), p);
        case _ =>
      }
      hide SealMessage, Rc4, Ber.LooksLikeCleartext;
      ClearBodiesLatch(prim, PairStep(prim, w, acts[0]), acts[1..]);
    }
  }

  // ---- the half-duplex discipline ----

  // A side sends only after reading everything sent to it.
  predicate Disciplined(prim: Primitives, w: Pair, acts: seq<Action>)
    decreases |acts|
  {
    acts == [] || w.down
    || ((acts[0].SendFromA? ==> |w.a.got| == |w.b.sent|)
        && (acts[0].SendFromB? ==> |w.b.got| == |w.a.sent|)
        && Disciplined(prim, PairStep(prim, w, acts[0]), acts[1..]))
  }

  // All that arrived came back as sent; all that is in flight is readable.
  predicate OnTrack(a: End, b: End) {
    && |b.got| <= |a.sent|
    && (forall k :: 0 <= k < |b.got| ==> b.got[k] == a.sent[k].plain)
    && (forall k :: |b.got| <= k < |a.sent| ==> a.sent[k].seen == |b.sent|)
  }

  // Over every disciplined run, in both directions, every message received is
  // the one sent.
  lemma {:induction false} DisciplinedRunIsFaithful(prim: Primitives, x: nat, y: nat, w: Pair, acts: seq<Action>)
    requires Balanced(prim, x, y, w) && AllLatch(prim, w, acts) && Disciplined(prim, w, acts)
    requires OnTrack(w.a, w.b) && OnTrack(w.b, w.a)
    ensures var w' := PairRun(prim, w, acts);
            OnTrack(w'.a, w'.b) && OnTrack(w'.b, w'.a)
    decreases |acts|
  {
    if acts != [] {
      var w1 := PairStep(prim, w, acts[0]);
      if !w.down {
        match acts[0]
        case SendFromA(p) => SendKeepsBalance(prim, x, y, w, p);
        case SendFromB(p) => SendKeepsBalance(prim, x, y, w.Swapped(), p);
        case DeliverToB =>
          DeliverKeepsBalance(prim, x, y, w);
          DeliverKeepsTrack(prim, x, y, w);
        case DeliverToA =>
          DeliverKeepsBalance(prim, x, y, w.Swapped());
          DeliverKeepsTrack(prim, x, y, w.Swapped());
      }
      DisciplinedRunIsFaithful(prim, x, y, w1, acts[1..]);
    }
  }

  // The same from two fresh endpoints: what either side received is, message
  // for message, what the other sent.
  lemma DisciplinedSessionIsFaithful(prim: Primitives, cfg: Config, peerSealOut: bool, acts: seq<Action>)
    requires cfg.Valid() && cfg.SharesSequence()
    requires var w := OpenedPair(Fresh(cfg, 0), Fresh(cfg.Mirror(peerSealOut), 0));
             AllLatch(prim, w, acts) && Disciplined(prim, w, acts)
    ensures var w := PairRun(prim, OpenedPair(Fresh(cfg, 0), Fresh(cfg.Mirror(peerSealOut), 0)), acts);
            && |w.b.got| <= |w.a.sent| && |w.a.got| <= |w.b.sent|
            && (forall k :: 0 <= k < |w.b.got| ==> w.b.got[k] == w.a.sent[k].plain)
            && (forall k :: 0 <= k < |w.a.got| ==> w.a.got[k] == w.b.sent[k].plain)
  {
    var w := OpenedPair(Fresh(cfg, 0), Fresh(cfg.Mirror(peerSealOut), 0));
    assert Balanced(prim, 0, 0, w);
    DisciplinedRunIsFaithful(prim, 0, 0, w, acts);
  }

  lemma DeliverKeepsTrack(prim: Primitives, x: nat, y: nat, w: Pair)
    requires !w.down && Balanced(prim, x, y, w) && NextLatches(w)
    requires OnTrack(w.a, w.b) && OnTrack(w.b, w.a)
    ensures var w' := DeliverOne(prim, w); OnTrack(w'.a, w'.b) && OnTrack(w'.b, w'.a)
  {
    if |w.b.got| < |w.a.sent| {
      DeliveryIsAlignedExactlyWhenDrained(prim, x, y, w);
    }
  }

  function CountingConfig(): Config {
    Config(NtlmFlags(false, true, true, false, false, false), true, false, [], [], [], [])
  }

  // Without the discipline it fails: two one-octet messages that cross are
  // read thirteen octets out of step, and come back altered.
  lemma CrossingMessagesAreGarbled()
    ensures var a, b := Fresh(CountingConfig(), 0), Fresh(CountingConfig().Mirror(true), 0);
            var w := PairRun(Counting(), OpenedPair(a, b), [SendFromA([0]), SendFromB([0]), DeliverToB]);
            !w.down && w.a.sent[0].plain == [0] && w.b.got == [[13]]
  {
    var a, b := Fresh(CountingConfig(), 0), Fresh(CountingConfig().Mirror(true), 0);
    var acts := [SendFromA([0]), SendFromB([0]), DeliverToB];
    var w := CrossingPair();
    assert PairRun(Counting(), OpenedPair(a, b), acts)
        == PairRun(Counting(), PairStep(Counting(), w, DeliverToB), []) by {
      var w0 := OpenedPair(a, b);
      assert acts[1..] == [SendFromB([0]), DeliverToB] && acts[1..][1..] == [DeliverToB];
      assert PairRun(Counting(), PairStep(Counting(), w0, acts[0]), acts[1..]) == PairRun(Counting(), w, [DeliverToB]);
    }
    assert Xor(0, 13) == 13;
    assert Rc4(Counting().keystream, [], 13, [0]) == [13];
  }

  // Both have sent, neither has read.
  lemma CrossingPair() returns (w: Pair)
    ensures var w0 := OpenedPair(Fresh(CountingConfig(), 0), Fresh(CountingConfig().Mirror(true), 0));
            w == PairStep(Counting(), PairStep(Counting(), w0, SendFromA([0])), SendFromB([0]))
    ensures !w.down && |w.a.sent| == 1 && w.a.sent[0].plain == [0] && Drop(w.a.sent[0].wire, 16) == [0]
    ensures w.b.got == [] && w.b.st == State(CountingConfig().Mirror(true), 1, 1, None, Shared(13))
  {
    var w0 := OpenedPair(Fresh(CountingConfig(), 0), Fresh(CountingConfig().Mirror(true), 0));
    FirstSend(w0);
    var w1 := PairStep(Counting(), w0, SendFromA([0]));
    FirstSend(w1.Swapped());
    hide SendOne;
    w := PairStep(Counting(), w1, SendFromB([0]));
  }

  lemma FirstSend(w: Pair)
    requires !w.down && w.a == End(Fresh(CountingConfig(), 0), [], [])
    ensures var w' := SendOne(Counting(), w, [0]);
            && !w'.down && w'.b == w.b && w'.a.got == [] && |w'.a.sent| == 1
            && w'.a.st == State(CountingConfig(), 1, 1, None, Shared(13))
            && w'.a.sent[0].plain == [0] && Drop(w'.a.sent[0].wire, 16) == [0]
  {
    SealedOnTheWire(Counting(), w.a.st.Outbound(), [0]);
    hide Signature;
    assert Xor(0, 0) == 0;
  }
}

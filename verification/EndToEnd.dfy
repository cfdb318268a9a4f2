// Two transports end to end: what one sends, message after message, through
// any security layer here and a network that cuts the stream where it likes,
// is what the other's receive returns.

module EndToEnd {
  import opened Bytes
  import opened Ber
  import opened LayerChannel
  import opened Stream
  import opened Transport
  import NtlmLayer
  import NtlmSessions
  import DigestMd5
  import KrbTokens

  // ---- what a layer needs for traffic to arrive ----

  // Texts that leave room for the wrapper below the frame length that is
  // mistaken for a SEQUENCE tag.
  predicate Small(p: bytes) { |p| < 0x2000_0000 }

  predicate Ordinary(p: bytes) { Small(p) && LooksLikeCleartext(p) }

  // An endpoint pair with numbers left for n texts can exchange one and has
  // numbers left for the others.
  ghost predicate Progresses<S, V>(l: Layer<S>, c: Contract<S, V>, good: (S, S, nat) -> bool, fine: bytes -> bool,
                                   s: S, r: S, p: bytes, n: nat)
  {
    good(s, r, n + 1) && fine(p) ==>
      var x := Wrapped(p);
      && CanSend(l, s, x) && ArrivesOne(l, c, s, r, x)
      && good(After(l, s, x), ReceiverAfter(l, s, r, x), n)
  }

  ghost predicate InTouch<S, V>(c: Contract<S, V>, good: (S, S, nat) -> bool, s: S, r: S, n: nat) {
    good(s, r, n) ==> c.valid(s) && c.valid(r) && c.accepts(r, c.out(s))
  }

  ghost predicate Dependable<S(!new), V(!new)>(
    l: Layer<S>, c: Contract<S, V>, good: (S, S, nat) -> bool, fine: bytes -> bool)
  {
    && OneWay(l, c)
    && (forall s: S, r: S, n: nat :: InTouch(c, good, s, r, n))
    && (forall s: S, r: S, p: bytes, n: nat :: Progresses(l, c, good, fine, s, r, p, n))
  }

  function Pieces(texts: seq<bytes>): seq<Piece> {
    seq(|texts|, i requires 0 <= i < |texts| => Wrapped(texts[i]))
  }

  // Nothing raises, everything fits its receiver, and numbers for `more` texts
  // are left.
  lemma {:induction false} AllArrive<S(!new), V(!new)>(
    l: Layer<S>, c: Contract<S, V>, good: (S, S, nat) -> bool, fine: bytes -> bool,
    s: S, r: S, texts: seq<bytes>, more: nat)
    requires Dependable(l, c, good, fine) && good(s, r, |texts| + more)
    requires forall i :: 0 <= i < |texts| ==> fine(texts[i])
    ensures Sendable(l, s, Pieces(texts)) && Arrives(l, c, s, r, Pieces(texts))
    ensures Texts(l, s, Pieces(texts)) == texts
    ensures good(SenderAfter(l, s, Pieces(texts)), ReceiverAtEnd(l, s, r, Pieces(texts)), more)
    decreases |texts|
  {
    if texts != [] {
      var x := Wrapped(texts[0]);
      assert Progresses(l, c, good, fine, s, r, texts[0], |texts| - 1 + more);
      hide CanSend, ArrivesOne;
      assert Pieces(texts)[0] == x && Pieces(texts)[1..] == Pieces(texts[1..]);
      AllArrive(l, c, good, fine, After(l, s, x), ReceiverAfter(l, s, r, x), texts[1..], more);
    }
  }

  // ---- one response ----

  lemma {:induction false} OctetsAppend(items: seq<Item>, x: Item)
    ensures Octets(items + [x]) == Octets(items) + x.octets
    decreases |items|
  {
    if items == [] {
      assert Octets([x]) == x.octets + Octets([]);
    } else {
      OctetsAppend(items[1..], x);
      assert (items + [x])[1..] == items[1..] + [x];
      assert items[0].octets + (Octets(items[1..]) + x.octets) == items[0].octets + Octets(items[1..]) + x.octets;
    }
  }

  // Read message by message, a response is complete at its end and not before.
  lemma {:induction false} ResponseIsOneBatch(
    decode: bytes -> Decoded, items: seq<Item>, k: nat, texts: seq<bytes>)
    requires IsResponse(decode, items) && k < |items| && |texts| == |items| - k
    requires forall i :: 0 <= i < |texts| ==> texts[i] == items[k + i].octets
    ensures OneBatch(decode, Octets(items[..k]), texts)
    ensures Octets(items[..k]) + Concat(texts) == Octets(items)
    decreases |items| - k
  {
    hide BatchFrom, DecodesAs;
    assert items[..k] + [items[k]] == items[..k + 1];
    OctetsAppend(items[..k], items[k]);
    BatchEndsWithTerminal(decode, items[..k + 1], None);
    if k + 1 < |items| {
      ResponseIsOneBatch(decode, items, k + 1, texts[1..]);
      assert Octets(items[..k]) + Concat(texts) == Octets(items[..k + 1]) + Concat(texts[1..]);
    } else {
      assert items[..k + 1] == items && Concat(texts) == texts[0];
    }
  }

  // What a receive makes of a whole response: its octets, unless they carry a
  // Notice of Disconnection.
  predicate Delivered<S>(env: Env<S>, octets: bytes, r: Outcome) {
    && (env.notice(octets) == None ==> r == Ok(octets))
    && (env.notice(octets).Some? ==> r == Raised(Disconnected(env.notice(octets).value)))
  }

  // Texts that complete a batch with the last of them, through a dependable
  // layer and with whatever stands behind them on the stream, come back joined
  // from one receive; and numbers for `more` texts are left.
  lemma BatchArrives<S(!new), V(!new)>(
    env: Env<S>, c: Contract<S, V>, good: (S, S, nat) -> bool, fine: bytes -> bool,
    s: S, r: S, texts: seq<bytes>, more: nat, rest: bytes)
    requires Dependable(env.layer, c, good, fine) && good(s, r, |texts| + more)
    requires OneBatch(env.decode, [], texts) && forall i :: 0 <= i < |texts| ==> fine(texts[i])
    ensures Sendable(env.layer, s, Pieces(texts))
    ensures var got := Receive(env, Some(r), SendAll(env.layer, s, Pieces(texts)) + rest, []);
            && Delivered(env, Concat(texts), got.outcome) && got.rest == rest && got.layer.Some?
            && good(SenderAfter(env.layer, s, Pieces(texts)), got.layer.value, more)
  {
    hide Receive, Sendable, SendAll, Arrives, Texts, Pieces, OneBatch;
    AllArrive(env.layer, c, good, fine, s, r, texts, more);
    assert InTouch(c, good, s, r, |texts| + more);
    ResponseArrivesWhole(env, c, s, r, Pieces(texts), rest);
  }

  // A response whose octets are cut into frames anywhere, inside its messages
  // as well as between them, comes back whole from one receive.
  lemma CutResponseArrives<S(!new), V(!new)>(
    env: Env<S>, c: Contract<S, V>, good: (S, S, nat) -> bool, fine: bytes -> bool,
    s: S, r: S, items: seq<Item>, texts: seq<bytes>, more: nat, rest: bytes)
    requires Dependable(env.layer, c, good, fine) && good(s, r, |texts| + more)
    requires IsResponse(env.decode, items) && AllUnderrun(env.decode, items)
    requires Concat(texts) == Octets(items) && texts != [] && texts[|texts| - 1] != []
    requires forall i :: 0 <= i < |texts| ==> fine(texts[i])
    ensures Sendable(env.layer, s, Pieces(texts))
    ensures var got := Receive(env, Some(r), SendAll(env.layer, s, Pieces(texts)) + rest, []);
            && Delivered(env, Octets(items), got.outcome) && got.rest == rest && got.layer.Some?
            && good(SenderAfter(env.layer, s, Pieces(texts)), got.layer.value, more)
  {
    hide *;
    assert [] + Concat(texts) == Octets(items);
    CutIsOneBatch(env.decode, items, [], texts);
    BatchArrives(env, c, good, fine, s, r, texts, more, rest);
  }

  // ---- the same on the transports ----

  // The k-th text is the k-th request under the k-th ID from first on.
  predicate Encodes(encode: (nat, bytes) -> bytes, first: nat, requests: seq<bytes>, texts: seq<bytes>) {
    |texts| == |requests| &&
    forall k :: 0 <= k < |requests| ==> texts[k] == encode(first + k, requests[k])
  }

  lemma FirstOfMany<S>(l: Layer<S>, s: S, xs: seq<Piece>, i: nat, sent: bytes)
    requires i < |xs| && Sendable(l, s, xs[i..])
    ensures var s1 := After(l, s, xs[i]);
            && CanSend(l, s, xs[i]) && Sendable(l, s1, xs[i + 1..])
            && sent + SendAll(l, s, xs[i..]) == sent + OnTheWire(l, s, xs[i]) + SendAll(l, s1, xs[i + 1..])
            && SenderAfter(l, s, xs[i..]) == SenderAfter(l, s1, xs[i + 1..])
  {
    hide CanSend, OnTheWire, After;
    assert xs[i..][0] == xs[i] && xs[i..][1..] == xs[i + 1..];
  }

  // One send after another puts SendAll on the socket.
  method SendEach<S(!new)>(t: LDAPTransport<S>, requests: seq<bytes>, ghost texts: seq<bytes>)
    requires t.bound && t.signing && t.layerStrategy.Some?
    requires Encodes(t.encode, t.nextMessageId, requests, texts)
    requires Sendable(t.env.layer, t.layerStrategy.value, Pieces(texts))
    modifies t`nextMessageId, t`sequenceNumber, t`layerStrategy, t.socket`outgoing
    ensures t.socket.outgoing
         == old(t.socket.outgoing) + SendAll(t.env.layer, old(t.layerStrategy).value, Pieces(texts))
    ensures t.layerStrategy == Some(SenderAfter(t.env.layer, old(t.layerStrategy).value, Pieces(texts)))
    ensures t.nextMessageId == old(t.nextMessageId) + |requests|
    ensures t.sequenceNumber == old(t.sequenceNumber) + |requests|
  {
    hide Sendable, SendAll, SenderAfter, Frame;
    ghost var l, s0, xs := t.env.layer, t.layerStrategy.value, Pieces(texts);
    ghost var whole := old(t.socket.outgoing) + SendAll(l, s0, xs);
    var i := 0;
    assert xs[0..] == xs;
    while i < |requests|
      invariant 0 <= i <= |requests|
      invariant t.bound && t.signing && t.layerStrategy.Some?
      invariant t.nextMessageId == old(t.nextMessageId) + i && t.sequenceNumber == old(t.sequenceNumber) + i
      invariant Sendable(l, t.layerStrategy.value, xs[i..])
      invariant t.socket.outgoing + SendAll(l, t.layerStrategy.value, xs[i..]) == whole
      invariant SenderAfter(l, t.layerStrategy.value, xs[i..]) == SenderAfter(l, s0, xs)
    {
      FirstOfMany(l, t.layerStrategy.value, xs, i, t.socket.outgoing);
      var r := t.Send(requests[i]);
      i := i + 1;
    }
    NoneLeft(l, t.layerStrategy.value, xs[i..]);
  }

  lemma NoneLeft<S>(l: Layer<S>, s: S, xs: seq<Piece>)
    requires xs == []
    ensures Sendable(l, s, xs) && SendAll(l, s, xs) == [] && SenderAfter(l, s, xs) == s
  {
  }

  // What the network may do to a stream of octets.
  ghost predicate Cuts(cut: bytes -> seq<bytes>) {
    forall x: bytes :: Concat(cut(x)) == x && forall k :: 0 <= k < |cut(x)| ==> cut(x)[k] != []
  }

  // One transport sends a response, message by message, the network cuts it up,
  // and one receive of the other returns it whole; both are then ready for the
  // next.
  method Exchange<S(!new), V(!new)>(
    sender: LDAPTransport<S>, receiver: LDAPTransport<S>, requests: seq<bytes>, cut: bytes -> seq<bytes>,
    ghost c: Contract<S, V>, ghost good: (S, S, nat) -> bool, ghost fine: bytes -> bool,
    ghost items: seq<Item>, ghost more: nat)
    returns (r: Option<Outcome>)
    requires sender.bound && sender.signing && receiver.bound && receiver.signing && sender.env == receiver.env
    requires sender != receiver && sender.socket != receiver.socket && Cuts(cut)
    requires sender.socket.outgoing == [] && receiver.saslBuf == [] && receiver.socket.incoming == []
    requires sender.layerStrategy.Some? && receiver.layerStrategy.Some?
    requires Dependable(sender.env.layer, c, good, fine)
    requires good(sender.layerStrategy.value, receiver.layerStrategy.value, |items| + more)
    requires Encodes(sender.encode, sender.nextMessageId, requests, Messages(items))
    requires IsResponse(sender.env.decode, items)
    requires forall i :: 0 <= i < |items| ==> fine(items[i].octets)
    modifies sender`nextMessageId, sender`sequenceNumber, sender`layerStrategy, sender.socket`outgoing
    modifies receiver`saslBuf, receiver`layerStrategy, receiver.socket`incoming
    ensures r.Some? && Delivered(sender.env, Octets(items), r.value)
    ensures receiver.socket.Valid() && receiver.Unread() == []
    ensures sender.layerStrategy.Some? && receiver.layerStrategy.Some?
    ensures good(sender.layerStrategy.value, receiver.layerStrategy.value, more)
    ensures sender.nextMessageId == old(sender.nextMessageId) + |requests|
  {
    ghost var texts := Messages(items);
    hide Sendable, SendAll, Receive, Dependable, IsResponse, SenderAfter, Pieces, Octets, Delivered, OneBatch;
    ghost var s0, r0 := sender.layerStrategy.value, receiver.layerStrategy.value;
    MessagesAreOneBatch(sender.env.decode, items);
    BatchArrives(sender.env, c, good, fine, s0, r0, texts, more, []);
    ghost var stream := SendAll(sender.env.layer, s0, Pieces(texts));
    assert [] + stream == stream == stream + [];
    SendEach(sender, requests, texts);
    assert sender.socket.outgoing == stream;
    receiver.socket.incoming := cut(sender.socket.outgoing);
    assert receiver.Unread() == [] + Concat(cut(stream)) == stream;
    r := receiver.RecvRaw();
  }

  function Messages(items: seq<Item>): seq<bytes> {
    seq(|items|, i requires 0 <= i < |items| => items[i].octets)
  }

  lemma MessagesAreOneBatch(decode: bytes -> Decoded, items: seq<Item>)
    requires IsResponse(decode, items)
    ensures OneBatch(decode, [], Messages(items)) && Concat(Messages(items)) == Octets(items)
  {
    hide OneBatch;
    assert items[..0] == [];
    ResponseIsOneBatch(decode, items, 0, Messages(items));
    assert [] + Concat(Messages(items)) == Concat(Messages(items));
  }

  // A server cuts a response into frames where it likes, wraps each, and the
  // network cuts the stream again: one receive returns the response whole, with
  // whatever is behind it left unread.
  method ReceiveCutResponse<S(!new), V(!new)>(
    t: LDAPTransport<S>, ghost c: Contract<S, V>, ghost good: (S, S, nat) -> bool, ghost fine: bytes -> bool,
    ghost peer: S, ghost items: seq<Item>, ghost texts: seq<bytes>, ghost more: nat, ghost rest: bytes)
    returns (r: Option<Outcome>)
    requires t.socket.Valid() && t.bound && t.signing && t.layerStrategy.Some?
    requires Dependable(t.env.layer, c, good, fine) && good(peer, t.layerStrategy.value, |texts| + more)
    requires IsResponse(t.env.decode, items) && AllUnderrun(t.env.decode, items)
    requires Concat(texts) == Octets(items) && texts != [] && texts[|texts| - 1] != []
    requires forall i :: 0 <= i < |texts| ==> fine(texts[i])
    requires Sendable(t.env.layer, peer, Pieces(texts))
    requires t.Unread() == SendAll(t.env.layer, peer, Pieces(texts)) + rest
    modifies t`saslBuf, t`layerStrategy, t.socket`incoming
    ensures r.Some? && Delivered(t.env, Octets(items), r.value)
    ensures t.Unread() == rest && t.layerStrategy.Some?
    ensures good(SenderAfter(t.env.layer, peer, Pieces(texts)), t.layerStrategy.value, more)
  {
    hide Sendable, SendAll, Receive, Dependable, IsResponse, SenderAfter, Pieces, Octets, Delivered, AllUnderrun;
    CutResponseArrives(t.env, c, good, fine, peer, t.layerStrategy.value, items, texts, more, rest);
    r := t.RecvRaw();
  }

  // ---- every layer here ----

  // An NTLM receiver that has latched already, or else whose peer sends in the
  // clear.
  predicate NtlmGood(s: NtlmLayer.State, r: NtlmLayer.State, n: nat, latched: bool) {
    && s.Valid() && r.Valid() && NtlmSessions.Accepts(r, s.Outbound())
    && (r.sealIn.Some? || (!latched && !s.cfg.sealOut))
    && s.sendSeq + n <= 0x1_0000_0000
  }

  // One text from a good pair to a good pair.
  lemma NtlmProgresses(prim: NtlmLayer.Primitives, s: NtlmLayer.State, r: NtlmLayer.State, p: bytes, n: nat,
                       latched: bool)
    requires NtlmGood(s, r, n + 1, latched) && (latched || Ordinary(p))
    ensures var (wire, s') := NtlmLayer.Wrap(prim, s, p);
            && wire.Some? && |wire.value| == 16 + |p| && NtlmSessions.LatchFits(r, s.Outbound(), wire.value)
            && NtlmGood(s', NtlmLayer.Unwrap(prim, r, wire.value).1, n, latched)
  {
    hide LooksLikeCleartext, NtlmLayer.Unwrap;
    NtlmSessions.SealedOnTheWire(prim, s.Outbound(), p);
    NtlmSessions.DeliveredIntact(prim, r, s.Outbound(), p);
  }

  // Once latched, frames may hold any part of a response; before that, only a
  // frame that opens with a whole message is recognised as cleartext.
  lemma NtlmIsDependable(prim: NtlmLayer.Primitives, latched: bool)
    ensures Dependable(NtlmSessions.NtlmLayerOf(prim), NtlmSessions.NtlmContract(prim, false),
                       (s, r, n: nat) => NtlmGood(s, r, n, latched),
                       (p: bytes) => if latched then Small(p) else Ordinary(p))
  {
    var l, c := NtlmSessions.NtlmLayerOf(prim), NtlmSessions.NtlmContract(prim, false);
    var good := (s: NtlmLayer.State, r: NtlmLayer.State, n: nat) => NtlmGood(s, r, n, latched);
    var fine := (p: bytes) => if latched then Small(p) else Ordinary(p);
    hide NtlmLayer.Unwrap, NtlmLayer.Wrap, LooksLikeCleartext, NtlmSessions.LatchFits;
    NtlmSessions.NtlmOneWay(prim, false);
    forall s: NtlmLayer.State, r: NtlmLayer.State, p: bytes, n: nat
      ensures Progresses(l, c, good, fine, s, r, p, n)
    {
      if good(s, r, n + 1) && fine(p) {
        NtlmProgresses(prim, s, r, p, n, latched);
        hide NtlmGood;
        assert l.wrap(s, p) == NtlmLayer.Wrap(prim, s, p);
      }
    }
  }

  predicate ConfGood(s: DigestMd5.State, r: DigestMd5.State, n: nat) {
    s.Valid() && r.Valid() && DigestMd5.Accepts(r, s.Outbound()) && s.sendSeq + n <= 0x1_0000_0000
  }

  lemma ConfProgresses(prim: DigestMd5.Primitives, s: DigestMd5.State, r: DigestMd5.State, p: bytes, n: nat)
    requires DigestMd5.Invertible(prim) && ConfGood(s, r, n + 1)
    ensures var (wire, s') := DigestMd5.Wrap(prim, s, p);
            && wire.Some? && |wire.value| <= |p| + 24
            && ConfGood(s', DigestMd5.Unwrap(prim, r, wire.value).1, n)
  {
    DigestMd5.WrapRaisesOnlyOnOverflow(prim, s.Outbound(), p);
    DigestMd5.DeliveredIntact(prim, r, s.Outbound(), p);
    hide DigestMd5.Unwrap, DigestMd5.CipherKey;
  }

  lemma ConfIsDependable(prim: DigestMd5.Primitives)
    requires DigestMd5.Invertible(prim)
    ensures Dependable(DigestMd5.ConfLayer(prim), DigestMd5.ConfContract(prim),
                       (s, r, n: nat) => ConfGood(s, r, n), p => Small(p))
  {
    var l, c := DigestMd5.ConfLayer(prim), DigestMd5.ConfContract(prim);
    var good := (s: DigestMd5.State, r: DigestMd5.State, n: nat) => ConfGood(s, r, n);
    var fine := (p: bytes) => Small(p);
    hide DigestMd5.Unwrap, DigestMd5.Wrap;
    DigestMd5.ConfConforms(prim);
    forall s: DigestMd5.State, r: DigestMd5.State, p: bytes, n: nat ensures Progresses(l, c, good, fine, s, r, p, n) {
      if ConfGood(s, r, n + 1) && Small(p) {
        ConfProgresses(prim, s, r, p, n);
        hide ConfGood;
        assert l.wrap(s, p) == DigestMd5.Wrap(prim, s, p);
      }
    }
  }

  predicate IntGood(s: DigestMd5.IntState, r: DigestMd5.IntState, n: nat) {
    r.serverSign == s.clientSign && r.recvSeq == s.sendSeq && s.sendSeq + n <= 0x1_0000_0000
  }

  lemma IntIsDependable(prim: DigestMd5.Primitives)
    ensures Dependable(DigestMd5.IntLayer(prim), DigestMd5.IntContract(prim),
                       (s, r, n: nat) => IntGood(s, r, n), p => Small(p))
  {
    var l, c := DigestMd5.IntLayer(prim), DigestMd5.IntContract(prim);
    var good := (s: DigestMd5.IntState, r: DigestMd5.IntState, n: nat) => IntGood(s, r, n);
    var fine := (p: bytes) => Small(p);
    DigestMd5.IntConforms(prim);
    forall s: DigestMd5.IntState, r: DigestMd5.IntState, p: bytes, n: nat
      ensures Progresses(l, c, good, fine, s, r, p, n)
    {
      if IntGood(s, r, n + 1) && Small(p) {
        assert l.wrap(s, p) == DigestMd5.IntWrap(prim, s, p);
      }
    }
  }

  // The library's own wrappers add less than 64 KiB.
  ghost predicate Modest(prim: KrbTokens.Primitives) {
    && (forall data: bytes :: |prim.envelope(data)| < |data| + 0x1_0000)
    && (forall role, key, plain: bytes, n: nat :: |prim.sealWrap(role, key, plain, n)| < |plain| + 0x1_0000)
  }

  predicate KrbGood(s: KrbTokens.State, r: KrbTokens.State, n: nat) {
    && r.key == s.key && r.wireSeal == s.wireSeal && r.role == s.role.Peer()
    && (s.wireSeal || s.sendSeq + n <= if s.key.enctype == 23 then 0x1_0000_0000 else 0x1_0000_0000_0000_0000)
  }

  lemma KrbProgresses(prim: KrbTokens.Primitives, s: KrbTokens.State, r: KrbTokens.State, p: bytes, n: nat)
    requires KrbTokens.Sound(prim) && Modest(prim) && KrbGood(s, r, n + 1)
    ensures var (wire, s') := KrbTokens.Wrap(prim, s, p);
            && wire.Some? && |wire.value| < |p| + 0x2_0000
            && KrbGood(s', KrbTokens.Unwrap(prim, r, wire.value).1, n)
  {
    hide KrbTokens.Open;
  }

  lemma KrbIsDependable(prim: KrbTokens.Primitives)
    requires KrbTokens.Sound(prim) && Modest(prim)
    ensures Dependable(KrbTokens.KrbLayer(prim), KrbTokens.KrbContract(prim),
                       (s, r, n: nat) => KrbGood(s, r, n), p => Small(p))
  {
    var l, c := KrbTokens.KrbLayer(prim), KrbTokens.KrbContract(prim);
    var good := (s: KrbTokens.State, r: KrbTokens.State, n: nat) => KrbGood(s, r, n);
    var fine := (p: bytes) => Small(p);
    hide KrbTokens.Unwrap, KrbTokens.Wrap;
    KrbTokens.KrbConforms(prim);
    forall s: KrbTokens.State, r: KrbTokens.State, p: bytes, n: nat ensures Progresses(l, c, good, fine, s, r, p, n) {
      if KrbGood(s, r, n + 1) && Small(p) {
        KrbProgresses(prim, s, r, p, n);
        assert l.wrap(s, p) == KrbTokens.Wrap(prim, s, p);
      }
    }
  }

  // Mirrored endpoints fresh from a bind can start.
  lemma FreshPairsAreGood(cfg: NtlmLayer.Config, peerSealOut: bool, firstSeq: nat,
                          kind: DigestMd5.CipherKind, keys: DigestMd5.Keys,
                          key: KrbTokens.Key, startSeq: nat, peerSeq: nat, n: nat)
    requires firstSeq + n <= NtlmLayer.SEQ_LIMIT && startSeq + n <= KrbTokens.RC4_SEQ_LIMIT
    requires cfg.Valid() && !cfg.sealOut && !cfg.datagram && keys.Valid()
    ensures NtlmGood(NtlmLayer.Fresh(cfg, firstSeq), NtlmLayer.Fresh(cfg.Mirror(peerSealOut), firstSeq), n, false)
    ensures ConfGood(DigestMd5.Fresh(kind, keys), DigestMd5.Fresh(kind, keys.Mirror()), n)
    ensures KrbGood(KrbTokens.State(KrbTokens.Acceptor, key, false, startSeq),
                    KrbTokens.State(KrbTokens.Initiator, key, false, peerSeq), n)
  {
  }
}

// The interface every security layer implements, the contract under which two
// mirrored endpoints understand each other, and what the contract gives for
// whole sessions, whichever layer is plugged in.

module LayerChannel {
  import opened Bytes

  // LayerStrategy: wrap and unwrap one message, updating the strategy. The
  // Python protocol is structural, so an implementation is its two transition
  // functions; None stands for an exception out of the call.
  datatype Layer<!S> = Layer(
    wrap: (S, bytes) -> (Option<bytes>, S),
    unwrap: (S, bytes) -> (Option<bytes>, S))

  // How a sender and a receiver stay together. A view is everything the next
  // outbound message depends on (keys, keystream position or cipher chain,
  // sequence number); `accepts` says a receiver is ready for a message sealed
  // at that view; `fits` is what a message must satisfy beyond that.
  datatype Contract<!S, !V> = Contract(
    valid: S -> bool,
    out: S -> V,
    seal: (V, bytes) -> (Option<bytes>, V),
    accepts: (S, V) -> bool,
    fits: (S, V, bytes) -> bool)

  // Wrapping seals at the sender's view and moves it on.
  ghost predicate WrapAdvances<S, V>(l: Layer<S>, c: Contract<S, V>, s: S, p: bytes) {
    var (wire, s') := l.wrap(s, p);
    wire.Some? && c.valid(s) ==> c.valid(s') && c.seal(c.out(s), p) == (wire, c.out(s'))
  }

  // Unwrapping returns what was sealed and is ready for the next view.
  ghost predicate UnwrapReturns<S, V>(l: Layer<S>, c: Contract<S, V>, r: S, v: V, p: bytes) {
    var (wire, v') := c.seal(v, p);
    wire.Some? && c.valid(r) && c.accepts(r, v) && c.fits(r, v, wire.value) ==>
      var (plain, r') := l.unwrap(r, wire.value);
      plain == Some(p) && c.valid(r') && c.accepts(r', v')
  }

  // What one direction needs.
  ghost predicate OneWay<S(!new), V(!new)>(l: Layer<S>, c: Contract<S, V>) {
    && (forall s: S, p: bytes :: WrapAdvances(l, c, s, p))
    && (forall r: S, v: V, p: bytes :: UnwrapReturns(l, c, r, v, p))
  }

  // Neither call disturbs the other direction.
  ghost predicate WrapKeepsInbound<S, V(!new)>(l: Layer<S>, c: Contract<S, V>, s: S, p: bytes) {
    var (wire, s') := l.wrap(s, p);
    wire.Some? && c.valid(s) ==> forall v: V :: c.accepts(s, v) ==> c.accepts(s', v)
  }

  ghost predicate UnwrapKeepsOutbound<S, V>(l: Layer<S>, c: Contract<S, V>, r: S, wire: bytes) {
    c.valid(r) ==> c.out(l.unwrap(r, wire).1) == c.out(r)
  }

  // Two independent directions.
  ghost predicate Conforms<S(!new), V(!new)>(l: Layer<S>, c: Contract<S, V>) {
    && OneWay(l, c)
    && (forall s: S, p: bytes :: WrapKeepsInbound(l, c, s, p))
    && (forall r: S, wire: bytes :: UnwrapKeepsOutbound(l, c, r, wire))
  }

  // ---- a session: two endpoints, an ordered stream each way ----

  datatype Flight<+V> = Flight(wire: bytes, plain: bytes, view: V)

  // One direction: messages sent, those still on the wire, and what the other
  // end returned for those that arrived.
  datatype Flow<+V> = Flow(sent: seq<bytes>, flight: seq<Flight<V>>, got: seq<bytes>)

  datatype Session<+S, +V> = Session(a: S, b: S, ab: Flow<V>, ba: Flow<V>, down: bool) {
    function Swapped(): Session<S, V> { Session(b, a, ba, ab, down) }
  }

  datatype Action = SendFromA(p: bytes) | SendFromB(p: bytes) | DeliverToA | DeliverToB

  // A raising call takes the session down; nothing happens after that.
  function Send<S, V>(l: Layer<S>, c: Contract<S, V>, w: Session<S, V>, p: bytes): Session<S, V> {
    var (wire, a') := l.wrap(w.a, p);
    match wire
    case None => w.(a := a', down := true)
    case Some(m) =>
      var flow := Flow(w.ab.sent + [p], w.ab.flight + [Flight(m, p, c.out(w.a))], w.ab.got);
      w.(a := a', ab := flow)
  }

  function Deliver<S, V>(l: Layer<S>, w: Session<S, V>): Session<S, V> {
    if w.ab.flight == [] then w
    else
      var (plain, b') := l.unwrap(w.b, w.ab.flight[0].wire);
      match plain
      case None => w.(b := b', down := true)
      case Some(p) => w.(b := b', ab := Flow(w.ab.sent, w.ab.flight[1..], w.ab.got + [p]))
  }

  function Step<S, V>(l: Layer<S>, c: Contract<S, V>, w: Session<S, V>, act: Action): Session<S, V> {
    if w.down then w
    else match act
      case SendFromA(p) => Send(l, c, w, p)
      case SendFromB(p) => Send(l, c, w.Swapped(), p).Swapped()
      case DeliverToB => Deliver(l, w)
      case DeliverToA => Deliver(l, w.Swapped()).Swapped()
  }

  function Run<S, V>(l: Layer<S>, c: Contract<S, V>, w: Session<S, V>, acts: seq<Action>): Session<S, V>
    decreases |acts|
  {
    if acts == [] then w else Run(l, c, Step(l, c, w, acts[0]), acts[1..])
  }

  // Every message is fit for its receiver at the moment it arrives.
  predicate HeadFits<S, V>(c: Contract<S, V>, w: Session<S, V>) {
    w.ab.flight != [] ==> c.fits(w.b, w.ab.flight[0].view, w.ab.flight[0].wire)
  }

  predicate AllFit<S, V>(l: Layer<S>, c: Contract<S, V>, w: Session<S, V>, acts: seq<Action>)
    decreases |acts|
  {
    acts == [] || w.down
    || ((acts[0] == DeliverToB ==> HeadFits(c, w))
        && (acts[0] == DeliverToA ==> HeadFits(c, w.Swapped()))
        && AllFit(l, c, Step(l, c, w, acts[0]), acts[1..]))
  }

  function Plains<V>(flight: seq<Flight<V>>): seq<bytes> {
    seq(|flight|, i requires 0 <= i < |flight| => flight[i].plain)
  }

  // The view the i-th message in flight was sealed at; past the last one, the
  // sender's present view.
  function ViewAt<V>(flight: seq<Flight<V>>, i: nat, last: V): V {
    if i < |flight| then flight[i].view else last
  }

  // Messages in flight form a chain of views from what the receiver is ready
  // for to where the sender stands.
  ghost predicate Chained<S, V>(c: Contract<S, V>, flight: seq<Flight<V>>, sender: S, receiver: S) {
    && c.valid(sender) && c.valid(receiver)
    && c.accepts(receiver, ViewAt(flight, 0, c.out(sender)))
    && (forall i :: 0 <= i < |flight| ==>
          c.seal(flight[i].view, flight[i].plain)
          == (Some(flight[i].wire), ViewAt(flight, i + 1, c.out(sender))))
  }

  // Nothing is lost, altered, repeated or reordered.
  predicate Faithful<V>(flow: Flow<V>) {
    flow.sent == flow.got + Plains(flow.flight)
  }

  ghost predicate InStep<S, V>(c: Contract<S, V>, w: Session<S, V>) {
    && Faithful(w.ab) && Faithful(w.ba)
    && (!w.down ==> Chained(c, w.ab.flight, w.a, w.b) && Chained(c, w.ba.flight, w.b, w.a))
  }

  function Opened<S, V>(a: S, b: S): Session<S, V> {
    Session(a, b, Flow([], [], []), Flow([], [], []), false)
  }

  lemma SendKeepsInStep<S(!new), V(!new)>(l: Layer<S>, c: Contract<S, V>, w: Session<S, V>, p: bytes)
    requires Conforms(l, c) && InStep(c, w) && !w.down
    ensures InStep(c, Send(l, c, w, p))
  {
    assert WrapAdvances(l, c, w.a, p) && WrapKeepsInbound(l, c, w.a, p);
    var w' := Send(l, c, w, p);
    if !w'.down {
      assert c.valid(w.a);
      var (wire, a') := l.wrap(w.a, p);
      assert wire.Some?;
      assert c.valid(a');
      assert w'.a == a';
      assert c.seal(c.out(w.a), p) == (l.wrap(w.a, p).0, c.out(w'.a));
      assert w'.ab.flight == w.ab.flight + [Flight(l.wrap(w.a, p).0.value, p, c.out(w.a))];
      assert Plains(w'.ab.flight) == Plains(w.ab.flight) + [p];
      assert w'.ab.got + (Plains(w.ab.flight) + [p]) == w.ab.got + Plains(w.ab.flight) + [p];
      assert Chained(c, w'.ab.flight, w'.a, w'.b) by {
        forall i | 0 <= i < |w'.ab.flight|
          ensures c.seal(w'.ab.flight[i].view, w'.ab.flight[i].plain)
               == (Some(w'.ab.flight[i].wire), ViewAt(w'.ab.flight, i + 1, c.out(w'.a)))
        {
          assert i < |w.ab.flight| ==> w'.ab.flight[i] == w.ab.flight[i];
        }
      }
    }
  }

  lemma DeliverKeepsInStep<S(!new), V(!new)>(l: Layer<S>, c: Contract<S, V>, w: Session<S, V>)
    requires Conforms(l, c) && InStep(c, w) && !w.down && HeadFits(c, w)
    ensures InStep(c, Deliver(l, w)) && !Deliver(l, w).down
  {
    if w.ab.flight != [] {
      var head := w.ab.flight[0];
      assert UnwrapReturns(l, c, w.b, head.view, head.plain) && UnwrapKeepsOutbound(l, c, w.b, head.wire);
      assert Plains(w.ab.flight) == [head.plain] + Plains(w.ab.flight[1..]);
      assert w.ab.got + ([head.plain] + Plains(w.ab.flight[1..]))
          == w.ab.got + [head.plain] + Plains(w.ab.flight[1..]);
    }
  }

  // Both directions, any interleaving, any number of messages in flight: every
  // message that arrives is exactly the one sent, in order, and a delivery
  // never raises (only a send can take the session down).
  lemma {:induction false} EveryRunStaysInStep<S(!new), V(!new)>(
    l: Layer<S>, c: Contract<S, V>, w: Session<S, V>, acts: seq<Action>)
    requires Conforms(l, c) && InStep(c, w) && AllFit(l, c, w, acts)
    ensures InStep(c, Run(l, c, w, acts))
    decreases |acts|
  {
    if acts != [] {
      if !w.down {
        match acts[0]
        case SendFromA(p) => SendKeepsInStep(l, c, w, p);
        case SendFromB(p) => SendKeepsInStep(l, c, w.Swapped(), p);
        case DeliverToB => DeliverKeepsInStep(l, c, w);
        case DeliverToA => DeliverKeepsInStep(l, c, w.Swapped());
      }
      EveryRunStaysInStep(l, c, Step(l, c, w, acts[0]), acts[1..]);
    }
  }

  // The same, from two endpoints that have exchanged nothing yet.
  lemma SessionIsFaithful<S(!new), V(!new)>(
    l: Layer<S>, c: Contract<S, V>, a: S, b: S, acts: seq<Action>)
    requires Conforms(l, c)
    requires c.valid(a) && c.valid(b) && c.accepts(b, c.out(a)) && c.accepts(a, c.out(b))
    requires AllFit(l, c, Opened(a, b), acts)
    ensures var w := Run(l, c, Opened(a, b), acts);
            && w.ab.got <= w.ab.sent && w.ba.got <= w.ba.sent
            && (w.ab.flight == [] ==> w.ab.got == w.ab.sent)
            && (w.ba.flight == [] ==> w.ba.got == w.ba.sent)
            && (!w.down && w.ab.flight == [] ==> c.accepts(w.b, c.out(w.a)))
            && (!w.down && w.ba.flight == [] ==> c.accepts(w.a, c.out(w.b)))
  {
    assert InStep(c, Opened<S, V>(a, b));
    EveryRunStaysInStep(l, c, Opened(a, b), acts);
  }

  // Where a layer asks nothing more of a message, every run fits.
  lemma {:induction false} EverythingFits<S, V>(l: Layer<S>, c: Contract<S, V>, w: Session<S, V>, acts: seq<Action>)
    requires forall s: S, v: V, wire: bytes :: c.fits(s, v, wire)
    ensures AllFit(l, c, w, acts)
    decreases |acts|
  {
    if acts != [] {
      EverythingFits(l, c, Step(l, c, w, acts[0]), acts[1..]);
    }
  }
}

// What NTLM traffic looks like from outside, octet by octet and message by
// message, for every set of negotiated flags: which key, which number, and
// where in which keystream (MS-NLMP, sections 3.4.3 and 3.4.4).

module NtlmWire {
  import opened Bytes
  import opened LayerChannel
  import opened NtlmLayer
  import opened NtlmLegacy
  import opened NtlmSessions
  import opened StreamCipher
  import Ber

  // The checksum of a message, before masking.
  function Checksum(prim: Primitives, ess: bool, signKey: bytes, n: nat, p: bytes): bytes {
    var size := if ess then 8 else 12;
    seq(size, i requires 0 <= i < size => ChecksumAt(prim, ess, signKey, n, p, i))
  }

  function ChecksumAt(prim: Primitives, ess: bool, signKey: bytes, n: nat, p: bytes, i: nat): byte {
    prim.checksum(ess, signKey, n, p, i)
  }

  lemma ChecksumIsUnmasked(prim: Primitives, ess: bool, signKey: bytes, n: nat, p: bytes)
    ensures ChecksumOctets(prim, ess, signKey, n, p) == Checksum(prim, ess, signKey, n, p)
  {
    var c := ChecksumOctets(prim, ess, signKey, n, p);
    forall i | 0 <= i < |c| ensures c[i] == Checksum(prim, ess, signKey, n, p)[i] {
      assert c[i] == ChecksumOctet(prim, ess, signKey, n, p, i);
    }
  }

  // A message whose body starts at pos of a key's keystream and whose signature
  // starts at sigPos.
  function Message(prim: Primitives, ess: bool, key: bytes, signKey: bytes, sealed: bool,
                   pos: nat, sigPos: nat, n: nat, p: bytes): bytes
  {
    [1, 0, 0, 0]
    + Rc4(prim.keystream, key, sigPos, Checksum(prim, ess, signKey, n, p))
    + (if ess then PackLE(n, 4) else [])
    + (if sealed then Rc4(prim.keystream, key, pos, p) else p)
  }

  lemma SignatureThenBody(prim: Primitives, v: View, key: bytes, p: bytes)
    ensures forall pos: nat, sigPos: nat ::
              Signature(prim, v.ess, key, sigPos, v.signKey, v.seqNum, p)
              + (if v.sealed then Rc4(prim.keystream, key, pos, p) else p)
              == Message(prim, v.ess, key, v.signKey, v.sealed, pos, sigPos, v.seqNum, p)
  {
    ChecksumIsUnmasked(prim, v.ess, v.signKey, v.seqNum, p);
    hide Checksum, ChecksumOctets, Rc4;
  }

  // One message of a continuous stream; the signature follows the body.
  lemma ContinuousMessage(prim: Primitives, v: View, p: bytes)
    requires !v.datagram && v.seqNum < 0x1_0000_0000
    ensures var used := if v.sealed then |p| else 0;
            && SealMessage(prim, v, p).0
               == Some(Message(prim, v.ess, v.sealKey, v.signKey, v.sealed, v.pos, v.pos + used, v.seqNum, p))
            && SealMessage(prim, v, p).1
               == v.(pos := v.pos + used + (if v.ess then 8 else 12), seqNum := v.seqNum + 1)
  {
    SignatureThenBody(prim, v, MessageKey(prim, v.ess, v.datagram, v.sealKey, v.seqNum), p);
    hide Signature, Message, Rc4;
  }

  // One message that restarts the keystream: under a key of its own with
  // extended session security, and otherwise the signature restarts it too.
  lemma RestartedMessage(prim: Primitives, v: View, p: bytes)
    requires v.datagram && v.sealed && v.seqNum < 0x1_0000_0000
    ensures var key := if v.ess then prim.md5(v.sealKey + PackLE(v.seqNum, 4)) else v.sealKey;
            && SealMessage(prim, v, p).0
               == Some(Message(prim, v.ess, key, v.signKey, true, 0, if v.ess then |p| else 0, v.seqNum, p))
            && SealMessage(prim, v, p).1 == v.(seqNum := v.seqNum + 1)
  {
    SignatureThenBody(prim, v, MessageKey(prim, v.ess, v.datagram, v.sealKey, v.seqNum), p);
    hide Signature, Message, Rc4;
  }

  // The wires of a run of calls, up to one that raises.
  function Wires(prim: Primitives, s: State, calls: seq<Call>): seq<bytes>
    decreases |calls|
  {
    if calls == [] then []
    else
      var (out, s') := CallOnce(prim, s, calls[0]);
      if out == None then []
      else if calls[0].CallWrap? then [out.value] + Wires(prim, s', calls[1..])
      else Wires(prim, s', calls[1..])
  }

  // Under extended session security, continuous or datagram, signatures are
  // numbered from where the strategy started, one apart, whatever is received
  // in between.
  lemma {:induction false} SignaturesCountUp(prim: Primitives, s: State, calls: seq<Call>, k: nat)
    requires s.cfg.flags.ess && k < |Wires(prim, s, calls)|
    ensures |Wires(prim, s, calls)[k]| >= 16
    ensures UnpackLE(Wires(prim, s, calls)[k][12..16]) == s.sendSeq + k
    decreases |calls|
  {
    var (out, s') := CallOnce(prim, s, calls[0]);
    if calls[0].CallWrap? {
      SealedOnTheWire(prim, s.Outbound(), calls[0].plain);
      assert Take(out.value, 16)[12..16] == out.value[12..16];
      if k > 0 {
        SignaturesCountUp(prim, s', calls[1..], k - 1);
      }
    } else {
      SignaturesCountUp(prim, s', calls[1..], k);
    }
  }


  // ---- whole runs, from the negotiated flags ----

  // The texts a run of calls wraps.
  function Texts(calls: seq<Call>): seq<bytes> {
    if calls == [] then []
    else if calls[0].CallWrap? then [calls[0].plain] + Texts(calls[1..])
    else Texts(calls[1..])
  }

  // Keystream the first k texts of a direction use.
  function Used(texts: seq<bytes>, k: nat, sealed: bool): nat
    requires k <= |texts|
  {
    if k == 0 then 0 else (if sealed then |texts[0]| else 0) + 8 + Used(texts[1..], k - 1, sealed)
  }

  // The message an endpoint with extended session security sends as its n-th,
  // its stream being at pos.
  function MessageAt(prim: Primitives, cfg: Config, pos: nat, n: nat, p: bytes): bytes {
    if cfg.datagram then
      Message(prim, true, prim.md5(cfg.clientSealKey + PackLE(n, 4)), cfg.clientSignKey, true, 0, |p|, n, p)
    else
      Message(prim, true, cfg.clientSealKey, cfg.clientSignKey, cfg.sealOut,
              pos, pos + (if cfg.sealOut then |p| else 0), n, p)
  }

  // One call. Receiving leaves the sending direction alone.
  lemma OneCall(prim: Primitives, s: State, call: Call)
    requires s.Valid() && s.cfg.flags.ess && (s.cfg.datagram ==> s.cfg.sealOut)
    ensures var (out, s') := CallOnce(prim, s, call);
            && s'.Valid() && s'.cfg == s.cfg
            && (call.CallUnwrap? ==> s'.streams.Send() == s.streams.Send() && s'.sendSeq == s.sendSeq)
            && (call.CallWrap? && out.Some? ==>
                  && s.sendSeq < 0x1_0000_0000 && s'.sendSeq == s.sendSeq + 1
                  && out.value == MessageAt(prim, s.cfg, s.streams.Send(), s.sendSeq, call.plain)
                  && (!s.cfg.datagram ==>
                        s'.streams.Send() == s.streams.Send() + (if s.cfg.sealOut then |call.plain| else 0) + 8))
  {
    if call.CallWrap? && s.sendSeq < 0x1_0000_0000 {
      if s.cfg.datagram {
        RestartedMessage(prim, s.Outbound(), call.plain);
      } else {
        ContinuousMessage(prim, s.Outbound(), call.plain);
      }
      hide SealMessage, Message;
    } else {
      hide Message, MessageAt, Signature, Rc4, Ber.LooksLikeCleartext;
    }
  }

  // The k-th message of an endpoint with extended session security, whatever it
  // receives in between: the direction's own key, consecutive numbers, and a
  // keystream that runs on from message to message or restarts under a key of
  // its own.
  lemma {:induction false} KthMessage(prim: Primitives, s: State, calls: seq<Call>, k: nat)
    requires s.Valid() && s.cfg.flags.ess && (s.cfg.datagram ==> s.cfg.sealOut)
    requires k < |Wires(prim, s, calls)|
    ensures k < |Texts(calls)| && s.sendSeq + k < 0x1_0000_0000
    ensures var pos := s.streams.Send() + Used(Texts(calls), k, s.cfg.sealOut);
            Wires(prim, s, calls)[k] == MessageAt(prim, s.cfg, pos, s.sendSeq + k, Texts(calls)[k])
    decreases |calls|
  {
    hide CallOnce, MessageAt;
    OneCall(prim, s, calls[0]);
    var (out, s') := CallOnce(prim, s, calls[0]);
    if calls[0].CallUnwrap? {
      KthMessage(prim, s', calls[1..], k);
    } else if k > 0 {
      KthMessage(prim, s', calls[1..], k - 1);
      if s.cfg.datagram {
        RestartsIgnoreThePosition(prim, s.cfg);
      }
    }
  }

  lemma RestartsIgnoreThePosition(prim: Primitives, cfg: Config)
    requires cfg.datagram
    ensures forall pos: nat, pos': nat, n: nat, p: bytes ::
              MessageAt(prim, cfg, pos, n, p) == MessageAt(prim, cfg, pos', n, p)
  {
  }

  // An endpoint as a bind leaves it: the client's, or the server's that mirrors
  // it and seals as it sees fit.
  function Endpoint(prim: Primitives, flags: NtlmFlags, exported: bytes, gss: bool, always: bool,
                    side: Direction, peerSeals: bool, first: nat): State
  {
    var cfg := BuildConfig(prim, flags, exported, gss, always);
    Fresh(if side.Client? then cfg else cfg.Mirror(peerSeals), first)
  }

  // Extended session security, every other flag free. Each side seals and signs
  // under its own direction's keys. The keystream restarts for every message,
  // rekeyed by its number, exactly for SEAL without SIGN over GSS; otherwise it
  // runs on. The client seals for SEAL, or for SIGN too when told to.
  lemma ModernTraffic(prim: Primitives, flags: NtlmFlags, exported: bytes, gss: bool, always: bool,
                      side: Direction, peerSeals: bool, first: nat, calls: seq<Call>, k: nat)
    requires flags.ess && (gss && flags.seal && !flags.sign ==> peerSeals)
    requires k < |Wires(prim, Endpoint(prim, flags, exported, gss, always, side, peerSeals, first), calls)|
    ensures k < |Texts(calls)|
    ensures var wire := Wires(prim, Endpoint(prim, flags, exported, gss, always, side, peerSeals, first), calls)[k];
            var p, n := Texts(calls)[k], first + k;
            var sealed := if side.Client? then flags.seal || (flags.sign && always) else peerSeals;
            var pos := Used(Texts(calls), k, sealed);
            var key, signKey := prim.sealKey(flags, exported, side), prim.signKey(flags, exported, side);
            wire == if gss && flags.seal && !flags.sign then
                      Message(prim, true, prim.md5(key + PackLE(n, 4)), signKey, true, 0, |p|, n, p)
                    else
                      Message(prim, true, key, signKey, sealed, pos, pos + (if sealed then |p| else 0), n, p)
  {
    hide Message, Wires, Texts, Used;
    KthMessage(prim, Endpoint(prim, flags, exported, gss, always, side, peerSeals, first), calls, k);
  }

  // The one sealing key without extended session security, in its three forms.
  lemma LegacyKeyForms(prim: Primitives, flags: NtlmFlags, exported: bytes, gss: bool, always: bool)
    requires !flags.ess && |exported| == 16
    ensures var cfg := BuildConfig(prim, flags, exported, gss, always);
            && cfg.clientSealKey == cfg.serverSealKey
            && cfg.clientSealKey == (
                 if !flags.lmKey && !flags.datagram then exported
                 else if flags.key56 then exported[..7] + [0xA0]
                 else exported[..5] + [0xE5, 0x38, 0xB0])
  {
  }

  // Without extended session security one keystream and one number serve both
  // directions: after any calls the next message starts where they left off.
  lemma LegacyTraffic(prim: Primitives, flags: NtlmFlags, exported: bytes, gss: bool, always: bool,
                      calls: seq<Call>, p: bytes)
    requires !flags.ess && !(gss && flags.seal && !flags.sign)
    requires var s := Endpoint(prim, flags, exported, gss, always, Client, true, 0);
             CallAll(prim, s, calls).0.sendSeq < 0x1_0000_0000
    ensures var s := Endpoint(prim, flags, exported, gss, always, Client, true, 0);
            var (s', cost, handled) := CallAll(prim, s, calls);
            var sealed := flags.seal || (flags.sign && always);
            Wrap(prim, s', p).0
            == Some(Message(prim, false, s.cfg.clientSealKey, prim.signKey(flags, exported, Client), sealed,
                            cost, cost + (if sealed then |p| else 0), handled, p))
  {
    hide Message, CallAll, SealMessage, Wrap;
    var s := Endpoint(prim, flags, exported, gss, always, Client, true, 0);
    AfterLegacyCalls(prim, s, calls);
    var v := CallAll(prim, s, calls).0.Outbound();
    ContinuousMessage(prim, v, p);
    WrapSeals(prim, CallAll(prim, s, calls).0, p);
  }

  lemma WrapSeals(prim: Primitives, s: State, p: bytes)
    ensures Wrap(prim, s, p).0 == SealMessage(prim, s.Outbound(), p).0
  {
    hide SealMessage;
  }

  lemma AfterLegacyCalls(prim: Primitives, s: State, calls: seq<Call>)
    requires HalfDuplex(s) && s.sendSeq == s.recvSeq == 0 && s.streams.both == 0
    ensures var (s', cost, handled) := CallAll(prim, s, calls);
            s'.cfg == s.cfg && s'.streams == Shared(cost) && s'.sendSeq == handled
  {
    HalfDuplexInvariant(prim, s, calls);
    ConfigStays(prim, s, calls);
    hide CallAll;
  }

  lemma {:induction false} ConfigStays(prim: Primitives, s: State, calls: seq<Call>)
    ensures CallAll(prim, s, calls).0.cfg == s.cfg
    decreases |calls|
  {
    if calls != [] {
      ConfigStays(prim, CallOnce(prim, s, calls[0]).1, calls[1..]);
    }
  }

  // SEAL without SIGN over GSS, without extended session security: body and
  // signature each start the one key's keystream, message after message, and
  // only what is sent is counted.
  lemma LegacyRestartedTraffic(prim: Primitives, flags: NtlmFlags, exported: bytes, always: bool,
                               calls: seq<Call>, k: nat)
    requires !flags.ess && flags.seal && !flags.sign
    requires k < |Wires(prim, Endpoint(prim, flags, exported, true, always, Client, true, 0), calls)|
    ensures k < |Texts(calls)|
    ensures var s := Endpoint(prim, flags, exported, true, always, Client, true, 0);
            Wires(prim, s, calls)[k]
            == Message(prim, false, s.cfg.clientSealKey, prim.signKey(flags, exported, Client), true,
                       0, 0, k, Texts(calls)[k])
  {
    hide Message, Wires, Texts;
    KthRestarted(prim, Endpoint(prim, flags, exported, true, always, Client, true, 0), calls, k);
  }

  lemma {:induction false} KthRestarted(prim: Primitives, s: State, calls: seq<Call>, k: nat)
    requires !s.cfg.flags.ess && s.cfg.datagram && s.cfg.sealOut && k < |Wires(prim, s, calls)|
    ensures k < |Texts(calls)|
    ensures Wires(prim, s, calls)[k]
         == Message(prim, false, s.cfg.clientSealKey, s.cfg.clientSignKey, true, 0, 0, s.sendSeq + k, Texts(calls)[k])
    decreases |calls|
  {
    hide CallOnce, Message;
    OneRestarted(prim, s, calls[0]);
    var s' := CallOnce(prim, s, calls[0]).1;
    if calls[0].CallUnwrap? {
      KthRestarted(prim, s', calls[1..], k);
    } else if k > 0 {
      KthRestarted(prim, s', calls[1..], k - 1);
    }
  }

  lemma OneRestarted(prim: Primitives, s: State, call: Call)
    requires !s.cfg.flags.ess && s.cfg.datagram && s.cfg.sealOut
    ensures var (out, s') := CallOnce(prim, s, call);
            && s'.cfg == s.cfg
            && (call.CallUnwrap? ==> s'.sendSeq == s.sendSeq)
            && (call.CallWrap? && out.Some? ==>
                  && s'.sendSeq == s.sendSeq + 1
                  && out.value == Message(prim, false, s.cfg.clientSealKey, s.cfg.clientSignKey, true,
                                          0, 0, s.sendSeq, call.plain))
  {
    if call.CallWrap? && s.sendSeq < 0x1_0000_0000 {
      RestartedMessage(prim, s.Outbound(), call.plain);
      hide SealMessage, Message;
    } else {
      hide Message, Signature, Rc4, Ber.LooksLikeCleartext;
    }
  }

  // A wrap raises exactly when its number is past 32 bits. The number stays,
  // but a body that was to be sealed has gone through a continuous keystream.
  lemma WrapRaisesOnlyPastTheNumber(prim: Primitives, s: State, p: bytes)
    ensures Wrap(prim, s, p).0 == None <==> s.sendSeq >= 0x1_0000_0000
    ensures Wrap(prim, s, p).0 == None ==>
              var used := if s.cfg.sealOut && !s.cfg.datagram then |p| else 0;
              Wrap(prim, s, p).1 == s.(streams := s.streams.WithSend(s.streams.Send() + used))
  {
  }

  // An unwrap raises exactly where a number has to be read from a signature cut
  // short, and then changes nothing.
  lemma UnwrapRaisesOnlyOnShortDatagrams(prim: Primitives, s: State, wrapped: bytes)
    ensures Unwrap(prim, s, wrapped).0 == None <==> s.cfg.datagram && s.cfg.flags.ess && |wrapped| < 16
    ensures Unwrap(prim, s, wrapped).0 == None ==> Unwrap(prim, s, wrapped).1 == s
  {
    hide Ber.LooksLikeCleartext, Rc4;
  }
}

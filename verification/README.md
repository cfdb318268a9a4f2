# The LDAP security layers of msldap-probe, verified

msldap-probe binds to a directory server with NTLM, Kerberos or DIGEST-MD5 and
then sends LDAP through whatever security layer that bind negotiated. This
project models that stack and proves that a session stays in step: that every
message comes out as it went in, over whole runs, however the network cuts the
stream up, and that each bind flow ends only where it may.

| file | what it covers |
|---|---|
| `Bytes.dfy`, `StreamCipher.dfy` | octet strings, Python slices, fixed-width integers, XOR, RC4 as a keystream |
| `LayerChannel.dfy` | the wrap/unwrap interface, the contract a layer meets, and what it gives for any two-way session |
| `Ber.dfy`, `Der.dfy` | the LDAPMessage framer and cleartext detector; the SPNEGO response-token walk; each against an encoder |
| `NtlmLayer.dfy`, `NtlmSessions.dfy`, `NtlmLegacy.dfy` | the NTLM strategy on mutable RC4 handles; independent directions; the half-duplex legacy regime |
| `NtlmWire.dfy` | every octet of NTLM traffic, from the negotiated flags |
| `DigestMd5.dfy`, `DigestWire.dfy` | auth-int and auth-conf, RC4 and CBC chains that run on between messages; the units sent, and a server that checks them |
| `KrbTokens.dfy`, `KrbWire.dfy` | RFC 4121 and RFC 4757 unsealed tokens, rotation, the numbered strategy; every octet of its traffic, and what is refused |
| `Stream.dfy`, `Transport.dfy` | the stream as a pure parser sees it; the incremental reader over a socket; sending and binding |
| `Binding.dfy`, `KrbBind.dfy`, `NtlmBind.dfy`, `DigestBind.dfy` | the bind flows, against every server |
| `KrbServer.dfy` | the Kerberos binds from the server's side: what it reads, and that one which plays by the rules is accepted |
| `EndToEnd.dfy` | two transports and a network between them: a response sent is the response received, through every layer |
| `Search.dfy` | the paged search loop |

How it is put together:

- A strategy class updates its fields and cipher objects in place, as the
  source's does. Each method is proved to compute a transition function on a
  value that stands for the object; theorems about runs are about those
  functions.
- The interface in `msldapprobe/layers.py` is structural, so it is a record of
  two transition functions here (`Layer`). A `Contract` says what a sender's
  view is and when a receiver is ready for it. Its one-way half is met by every
  layer here and carries the framing theorems; the whole is met wherever the
  directions are independent and carries the two-way session theorems.
- A layer is dependable (`EndToEnd.dfy`) if it does one way and, while numbers
  last, texts under 2^29 octets can be wrapped, framed and read back. Every layer
  here is; what follows for two transports is proved once.
- Two mirrored ends understand each other even where both are wrong the same
  way. What the client sends is therefore also stated from outside, in the
  primitives and literal octets (`NtlmWire`, `DigestWire`, `KrbWire`), and read
  by servers that check what this client only strips (`DigestWire`,
  `KrbServer`).
- The peer is the same strategy with the keys of the two directions swapped
  (for Kerberos, with the other role). What it seals is its own choice.
- RC4 is XOR with an arbitrary keystream, block ciphers are arbitrary keyed
  permutations, and MACs, hashes and library codecs are arbitrary functions of
  stated output length. An exception is `None` or an error value.
- A bind runs against an arbitrary function from the requests made so far to
  the next reply, so each statement about a bind is about every server.

Where naive statements fail, the exact condition is proved:

- A SASL frame is read back if and only if the top octet of its length is not
  0x30. The comment at `msldapprobe/transport.py:386-390` calls that octet an
  unambiguous discriminator; it is one below 805306368 octets.
- The rotation of a Wrap token is undone if and only if RRC is no larger than
  the body or a multiple of its length. RFC 4121, section 4.2.5, goes around;
  the code's slices clamp. For every other count there is a sound token that
  does not verify to its payload.
- In the legacy NTLM regime a message is unsealed where it was sealed if and
  only if its sender had read everything the receiver has sent by then.
- The first inbound body decides the NTLM session: for a body that is not
  empty, the receiver's keystream stands where the sender's does afterwards if
  and only if the detector told sealed from cleartext. A wrong guess returns the
  body masked, the positions then drift apart by every message's length, and a
  sealed body that is taken for cleartext is given.
- A server in the clear must put a whole message at the head of its first NTLM
  frame. Once a receiver has latched, and always under the other layers, frames
  may hold any part of a response.
- A DIGEST-MD5 bind leaves a signing transport without a layer if and only if
  the server answers the very first request with success. The bind is accepted
  all the same, and the next message raises.
- An RFC 4757 token whose sender adds no marker octet is read right if and only
  if its data does not end in one.

The class docstring at `msldapprobe/ntlm_layers.py:137-139` speaks of four RC4
handles; the code has two, or one shared by both directions, and the model
follows the code. The module docstring at
`msldapprobe/digest_md5_methods.py:23-25` says that only RC4 is implemented; DES
and triple DES are, and are modelled.

## Model

Rows about NTLM sessions that speak of latching mean the guess made on the first
inbound body, sealed or cleartext, which is kept for the connection.

| member | source | states |
|---|---|---|
| LayerChannel.EveryRunStaysInStep | msldapprobe/layers.py:16-25 | for any layer meeting the contract and any interleaving of sends and deliveries both ways, nothing is lost, altered, repeated or reordered, and the receiver is always ready for the oldest message in flight |
| LayerChannel.DeliverKeepsInStep | msldapprobe/layers.py:16-25 | a delivery in a session that is in step never raises and keeps it in step |
| LayerChannel.SessionIsFaithful | msldapprobe/layers.py:16-25 | from two endpoints that have exchanged nothing: what each received is a prefix of what the other sent, all of it once nothing is in flight |
| Ber.UnsizedCanStillBecomeSized | msldapprobe/transport.py:293-305 | a buffer the framer cannot size can still grow into a message if and only if its first two octets do not rule it out |
| Ber.SizeIsStable | msldapprobe/transport.py:293-305 | a size, once given, is the same for every extension of the buffer |
| Ber.SixOctetsSettle | msldapprobe/transport.py:307-317 | no answer on six octets is no answer for every extension, so the reader raises only on streams that can never become valid |
| Ber.FramerInvertsEncode | msldapprobe/transport.py:293-305 | the framer cuts any definite-length BER LDAPMessage off exactly, whatever follows |
| Ber.MessageIdFits | msldapprobe/ntlm_layers.py:363-368 | every messageID up to 2^31 - 1 takes one to four octets, inside what the detector allows |
| Ber.DetectorIsExact | msldapprobe/ntlm_layers.py:336-368 | the detector accepts a payload if and only if it opens with an encoded LDAPMessage, alone or followed by anything |
| Ber.DetectedIsEncoded | msldapprobe/ntlm_layers.py:336-368 | what the detector accepts the framer sizes inside the payload, and those octets are an encoded message |
| NtlmLayer.BuildConfig | msldapprobe/ntlm_layers.py:402-454 | datagram mode exactly for SEAL without SIGN over GSS; half-duplex sessions have one sealing key, datagram sessions always seal, and bodies are sealed for SEAL or, with the override, for SIGN |
| NtlmWire.ModernTraffic | msldapprobe/ntlm_layers.py:221-269 | with extended session security, for every other flag and both ends: the k-th message, whatever is received in between, octet by octet: its direction's keys, number first + k, body and signature where the messages before left the keystream (eight octets of signature each), or from its start under a key of its own for SEAL without SIGN over GSS |
| NtlmWire.LegacyKeyForms | msldapprobe/ntlm_layers.py:371-400 | the one sealing key without extended session security: whole, or cut to 56 or 40 bits with its salt |
| NtlmWire.LegacyTraffic | msldapprobe/ntlm_layers.py:402-431 | without it, after any calls either way, the next message starts where they left the one keystream and takes the next of the one number |
| NtlmWire.LegacyRestartedTraffic | msldapprobe/ntlm_layers.py:212-269 | without it, for SEAL without SIGN over GSS, body and signature of every message each start the key's keystream, and only what is sent is numbered |
| NtlmWire.WrapRaisesOnlyPastTheNumber | msldapprobe/ntlm_layers.py:241-269 | a wrap raises if and only if its number is past 32 bits; the number stays and a sealed body has used its keystream |
| NtlmWire.UnwrapRaisesOnlyOnShortDatagrams | msldapprobe/ntlm_layers.py:290-291 | an unwrap raises if and only if a number must be read from a signature cut short, and then changes nothing |
| NtlmLayer.NTLMLayerStrategy.constructor | msldapprobe/ntlm_layers.py:402-454 | both directions share one RC4 object exactly without extended session security; counters zero, latch open |
| NtlmLayer.NTLMLayerStrategy.Handle | msldapprobe/ntlm_layers.py:221-239 | datagram mode gets a fresh handle at offset zero, rekeyed by number under extended session security only; otherwise the continuous one |
| NtlmLayer.NTLMLayerStrategy.WrapMessage | msldapprobe/ntlm_layers.py:241-269 | the imperative wrap, aliased handles and all, is the transition function Wrap |
| NtlmLayer.NTLMLayerStrategy.UnwrapMessage | msldapprobe/ntlm_layers.py:271-333 | the imperative unwrap, latch and keystream consumption included, is the transition function Unwrap |
| NtlmSessions.NtlmOneWay | msldapprobe/ntlm_layers.py:241-333 | every regime, legacy included, meets the one-way half of the contract, so the framing results below hold for it |
| NtlmSessions.NtlmConforms | msldapprobe/ntlm_layers.py:241-333 | with extended session security or in datagram mode the two directions are independent and the strategy meets the whole layer contract |
| NtlmSessions.DeliveredIntact | msldapprobe/ntlm_layers.py:271-333 | in every regime a receiver that is ready and latches right gets the plaintext back and is ready for the sender's next message |
| NtlmSessions.NtlmSessionIsFaithful | msldapprobe/ntlm_layers.py:241-333 | over every run of two mirrored endpoints in which each first body latches right, sealed or cleartext either way, messages arrive as sent, and RC4 positions and numbers agree whenever nothing is in flight |
| NtlmSessions.FirstBodyDecides | msldapprobe/ntlm_layers.py:296-311 | after a first body that is not empty the receiver's keystream stands where the sender's does if and only if the latch is right; the text comes back then, and otherwise the body masked: the sealed octets as they are, or a cleartext body put through the keystream |
| NtlmSessions.WrongLatchNeverRecovers | msldapprobe/ntlm_layers.py:301-311 | after a wrong latch the two positions drift apart by the whole length of every message that follows, over any run of messages |
| NtlmSessions.SealedBodyTakenForCleartext | msldapprobe/ntlm_layers.py:301-311 | a concrete sealed body that the detector takes for an LDAPMessage: it is returned undecrypted and the receiver is five octets behind |
| NtlmSessions.CleartextPeerLatches | msldapprobe/ntlm_layers.py:306-311 | a cleartext peer's first LDAPMessage, however encoded or bundled, always latches cleartext and is returned as it is |
| NtlmSessions.ClearBodiesFit | msldapprobe/ntlm_layers.py:306-311 | over every run in which ends that send in the clear send LDAPMessages, alone or bundled, their bodies always latch right: nothing is left to ask but of first sealed bodies |
| NtlmSessions.ClearSessionIsFaithful | msldapprobe/ntlm_layers.py:241-333 | two ends that send LDAPMessages in the clear are faithful over every run, with no hypothesis on the latch |
| NtlmSessions.DatagramIgnoresHistory | msldapprobe/ntlm_layers.py:290-311 | latched datagram receivers with one key read the same wire alike, whatever they saw before |
| NtlmSessions.DatagramSurvivesLossAndReordering | msldapprobe/ntlm_layers.py:221-311 | datagram messages lost, repeated or reordered each decrypt to their own plaintext |
| NtlmLegacy.HalfDuplexInvariant | msldapprobe/ntlm_layers.py:207-333 | over any calls in any order, one number serves both directions and counts every message, and the shared position is the sum of sealed bodies and twelve octets each |
| NtlmLegacy.PositionsBalance | msldapprobe/ntlm_layers.py:412-422 | over every interleaving in which each first body latches right, the two positions differ by exactly what is still on the wire, so they agree whenever nothing is, even after messages crossed |
| NtlmLegacy.DeliveryIsAlignedExactlyWhenDrained | msldapprobe/ntlm_layers.py:241-333 | a message is unsealed where it was sealed if and only if its sender had read all the receiver has sent; then its plaintext comes back |
| NtlmLegacy.DisciplinedSessionIsFaithful | msldapprobe/ntlm_layers.py:241-333 | when each side sends only after reading everything sent to it, and each first body latches right, every message received is the one sent |
| NtlmLegacy.ClearBodiesLatch | msldapprobe/ntlm_layers.py:306-311 | in the shared-stream regime too, what an end sends in the clear latches right over every run, so the hypothesis is about sealed bodies alone |
| NtlmLegacy.CrossingMessagesAreGarbled | msldapprobe/ntlm_layers.py:412-422 | a concrete session where two messages cross and one comes back altered |
| DigestMd5.DesKeyBitsSurvive | msldapprobe/digest_md5_methods.py:140-160 | the key expansion loses no bit: the top seven bits of the eight octets spell the input |
| DigestMd5.CbcRoundTrip | msldapprobe/digest_md5_methods.py:196-219 | CBC decryption from any chaining block undoes encryption from it |
| DigestMd5.DecipherUndoesEncipher | msldapprobe/digest_md5_methods.py:210-219 | cipher objects at one point of a keystream or chain are at one point again after one enciphers and the other deciphers |
| DigestMd5.PaddingIsReversible | msldapprobe/digest_md5_methods.py:225-243 | block-cipher units are whole blocks with one to eight pad octets, and stripping recovers the text, the empty one included |
| DigestMd5.WrapRaisesOnlyOnOverflow | msldapprobe/digest_md5_methods.py:221-235 | wrap raises if and only if the number no longer fits four octets, and then changes nothing |
| DigestMd5.DigestMd5ConfLayerStrategy.WrapMessage | msldapprobe/digest_md5_methods.py:221-235 | the imperative wrap is the transition function Wrap |
| DigestMd5.DigestMd5ConfLayerStrategy.UnwrapMessage | msldapprobe/digest_md5_methods.py:237-245 | the imperative unwrap is the transition function Unwrap |
| DigestWire.MessageCarriesItsUnit | msldapprobe/digest_md5_methods.py:221-235 | a message is text, pad and keyed hash over number and text, through the cipher where the last message left it, then 00 01 and the number in the clear; a server that deciphers it finds that unit |
| DigestWire.OneCipherForLife | msldapprobe/digest_md5_methods.py:207-235 | over any run and under every cipher, the ciphertexts joined are the units joined put through one cipher |
| DigestWire.WiresShowTheirNumbers | msldapprobe/digest_md5_methods.py:221-235 | over any run the k-th wire ends in 00 01 and start + k |
| DigestWire.CheckingServerBelieves | msldapprobe/digest_md5_methods.py:221-235 | a server that checks message type, number and keyed hash accepts every message of every run and reads its text |
| DigestWire.CipherKeys | msldapprobe/digest_md5_methods.py:196-208 | RC4 under the whole key; DES under the spread of its first seven octets, triple DES under two such keys and the first again, CBC from the last eight |
| DigestWire.CbcBlock | msldapprobe/digest_md5_methods.py:196-219 | each ciphertext block is the cipher of its text masked with the block before it |
| DigestWire.NamesOfCiphers | msldapprobe/digest_md5_methods.py:196-206 | exactly des and 3des, in any case, mean those ciphers, and every other name RC4 |
| DigestWire.PadOctetDecides | msldapprobe/digest_md5_methods.py:237-243 | the octet before the hash says how much is cut off; zero or too much leaves nothing |
| DigestWire.ShortFramesAreEmpty | msldapprobe/digest_md5_methods.py:237-245 | a frame with no room for a hash reads as an empty text, or raises on part of a block |
| DigestMd5.ConfConforms | msldapprobe/digest_md5_methods.py:196-245 | auth-conf meets the layer contract under every cipher |
| DigestMd5.ConfSessionIsFaithful | msldapprobe/digest_md5_methods.py:196-245 | for every cipher and interleaving the n-th message unwrapped is the n-th message wrapped |
| DigestMd5.IntSessionIsFaithful | msldapprobe/digest_md5_methods.py:126-137 | the same for auth-int, whose trailer is cut off and not checked |
| DigestWire.IntTraffic | msldapprobe/digest_md5_methods.py:126-131 | the k-th auth-int message is its text, keyed hash over number and text, 00 01 and start + k |
| KrbTokens.UnrotateIsExact | msldapprobe/krb_layers.py:310-311 | for bodies of a given size the code undoes a rotation by rrc if and only if rrc is no larger or a multiple |
| KrbTokens.RotatedTokenVerifies | msldapprobe/krb_layers.py:294-342 | a built token, rotated on the wire by any such count, verifies and returns its payload and number |
| KrbTokens.RotatedTokenIsExact | msldapprobe/krb_layers.py:294-342 | rotated by any count, a built token verifies to its payload if and only if the slices recover its body |
| KrbTokens.OtherCountsBreakTokens | msldapprobe/krb_layers.py:294-342 | for every count the slices do not undo, at every checksum and payload size, some token does not verify to its payload |
| KrbTokens.NoChecksumNoPayload | msldapprobe/krb_layers.py:310-311 | with EC zero Python's slices make the payload empty and the checksum the whole body |
| KrbTokens.BuiltRc4Verifies | msldapprobe/krb_layers.py:235-280 | an RFC 4757 token returns its payload, even one that ends in the marker octet |
| KrbTokens.UnmarkedDataIsExact | msldapprobe/krb_layers.py:252-252 | data sent without the marker is read right if and only if it does not end in one |
| KrbWire.CfxIsJudgedByItsChecksum | msldapprobe/krb_layers.py:331-342 | an RFC 4121 token of any payload and any checksum verifies if and only if the checksum is the keyed one of that payload, flags and number |
| KrbWire.ArcfourIsJudgedByItsChecksum | msldapprobe/krb_layers.py:231-252 | so does an RFC 4757 token, whatever its algorithm and number fields hold, and a trailing marker is dropped |
| KrbWire.OtherTokensAreRefused | msldapprobe/krb_layers.py:298-309 | tokens too short or of another kind are refused |
| KrbWire.AlteredTokenRaises | msldapprobe/krb_layers.py:482-493 | the strategy returns exactly the payloads whose checksum is the peer's, and raises on the others |
| KrbWire.ArcfourFraming | msldapprobe/krb_layers.py:488-492 | RFC 4757 traffic is read bare as well as in its envelope, and what opens like an envelope has to be one |
| KrbTokens.KerberosLayerStrategy.WrapMessage | msldapprobe/krb_layers.py:461-480 | the imperative wrap is the transition function Wrap |
| KrbTokens.KrbConforms | msldapprobe/krb_layers.py:461-493 | the Kerberos strategy meets the layer contract for every key type and layer |
| KrbTokens.KrbSessionIsFaithful | msldapprobe/krb_layers.py:461-493 | for every key type and layer and every interleaving, what arrives is what was sent |
| KrbWire.TrafficIsNumberedWithoutGaps | msldapprobe/krb_layers.py:461-480 | the k-th token of a run is, octet by octet, the k-th message under start + k: sealed by the library, an RFC 4757 token in its envelope, or an RFC 4121 token |
| KrbWire.NothingPastTheLastNumber | msldapprobe/krb_layers.py:461-480 | and nothing goes out once numbers no longer fit their format |
| KrbWire.Rc4FieldsAt | msldapprobe/krb_layers.py:255-280 | checksum, SND_SEQ and confounder of an RFC 4757 token are the library's, under the token's own number |
| Stream.FrameReadsBackExactly | msldapprobe/transport.py:382-394 | a frame is cut off the stream as itself if and only if its length does not have 0x30 on top |
| Stream.PlainMessageReadsBack | msldapprobe/transport.py:307-323 | an unwrapped LDAPMessage is cut off as itself, whatever follows |
| Stream.BatchEndsWithTerminal | msldapprobe/transport.py:337-353 | whole messages complete a batch exactly when the last one ends its operation |
| Stream.TailDecides | msldapprobe/transport.py:341-346 | behind whole messages an underrun waits for more, and what cannot be decoded raises |
| Stream.CutShortIsIncomplete | msldapprobe/transport.py:337-353 | a response cut short anywhere, inside a message too, is neither complete nor an error |
| Stream.EncodedDecodes | msldapprobe/transport.py:293-305 | for a decoder that sizes messages as the framer does, every encoded LDAPMessage is such an item: read wherever it stands, and an underrun in every part |
| Stream.CutIsOneBatch | msldapprobe/transport.py:394-396 | pieces of a response, cut anywhere, complete the batch with the last of them |
| Stream.RefusedFrameRaises | msldapprobe/transport.py:181-189 | a frame the layer refuses, or that comes without a layer, raises with the stream left behind it |
| Stream.ClosedInsideFrame | msldapprobe/transport.py:285-335 | a connection closed before or inside a frame raises and consumes nothing |
| Stream.ClosedInsideMessage | msldapprobe/transport.py:307-323 | the same inside an unwrapped message |
| Stream.NoMessageRaises | msldapprobe/transport.py:310-316 | six octets that can never become an LDAPMessage raise |
| Stream.SentIsRead | msldapprobe/transport.py:325-335 | for any layer meeting the one-way contract and any mix of frames and plain messages, what is sent is read back in order and without loss, the rest left unread |
| Stream.ReceiveCoalesces | msldapprobe/transport.py:378-403 | one receive returns the concatenated texts of one batch, however many units carry it |
| Stream.ResponseArrivesWhole | msldapprobe/transport.py:168-189 | messages wrapped, prefixed and concatenated come back from one receive, and the receiver is left exactly where reading each in turn leaves it, ready for the next response |
| Stream.ReceiveKeepsLayer | msldapprobe/transport.py:181-189 | with a layer in place a receive never reports a missing one |
| Stream.ReceivedIsWholeBatch | msldapprobe/transport.py:337-403 | whatever the peer sends, the text of a receive is whole messages, at least one, the last of which ends its operation |
| Transport.LDAPTransport.ReadPlainLdapMessage | msldapprobe/transport.py:307-323 | the incremental reader returns what the parser makes of the whole stream, and leaves exactly the rest |
| Transport.LDAPTransport.ReadSaslFrame | msldapprobe/transport.py:325-335 | the same for one length-prefixed frame |
| Transport.LDAPTransport.ReadUnit | msldapprobe/transport.py:380-394 | one turn of the loop: the next unit of the stream, a frame through decrypt and a plain message as it is, with exactly the rest left |
| Transport.LDAPTransport.BatchIsComplete | msldapprobe/transport.py:337-353 | the decoding loop computes the batch verdict that TailDecides and BatchEndsWithTerminal describe |
| Transport.LDAPTransport.RecvRaw | msldapprobe/transport.py:355-403 | unless bound and signing, the call is passed on with nothing touched; otherwise result, layer and unread suffix are a function of the stream alone, errors included, whatever the chunks; a text returned is one whole batch; a ready transport never lacks a layer |
| Transport.ReadTwice | msldapprobe/transport.py:355-403 | two transports with one stream cut up differently read the same and stay in agreement |
| Transport.LDAPTransport.Encrypt | msldapprobe/transport.py:173-179 | the missing-layer error occurs exactly without a strategy; otherwise the wrapped message is framed |
| Transport.LDAPTransport.Send | msldapprobe/transport.py:152-171 | every message takes the next ID; it is wrapped exactly on a bound signing transport, the missing-layer error occurs exactly when that has no strategy, and an error puts nothing on the socket |
| Transport.LDAPTransport.MarkBound | msldapprobe/transport.py:405-413 | the transport is bound with the given strategy |
| Der.DerTlv | msldapprobe/krb_methods.py:105-120 | a success advances by at least two and stays in bounds |
| Der.TlvInvertsEncode | msldapprobe/krb_methods.py:105-120 | any element with a definite length, minimal or not, is read back wherever it stands |
| Der.SpnegoResponseToken | msldapprobe/krb_methods.py:123-150 | the walking loop ends on every input and computes TokenOf |
| Der.WalkerInvertsEncoder | msldapprobe/krb_methods.py:123-150 | for any fields of a negTokenResp in any definite-length form, the walk returns the response token's octets, or nothing when absent or empty |
| Der.CutShortIsNoElement | msldapprobe/krb_methods.py:105-120 | an element cut short anywhere is none |
| Der.OtherTagsCarryNothing | msldapprobe/krb_methods.py:132-137 | credentials that are not a negTokenResp with a SEQUENCE in it carry no token |
| KrbBind.BindSpnego | msldapprobe/krb_methods.py:153-230 | against every server: at most five requests, AP-REQ first or second and every other token empty, accepted if and only if one of the first four replies is success after only in-progress ones and any AP-REP verifies, traffic from zero under the right key; an exception exactly where only the key's type is unsupported |
| KrbBind.ApReqGoesOutOnce | msldapprobe/krb_methods.py:187-212 | the AP-REQ goes out exactly once unless a deferred bind ends on its first reply |
| KrbBind.BindGssapi | msldapprobe/krb_methods.py:310-490 | against every server: the client goes on after each reply exactly when that reply lets it, with the empty continuation exactly for an empty or verified AP-REP first reply; accepted if and only if at once or after the security-layer exchange under one key; an exception exactly for an unsupported key type or an RC4 offer without its envelope; bound only after success |
| KrbBind.ConversationIsSettled | msldapprobe/krb_methods.py:366-490 | a server's answers admit one conversation only, so acceptance is a function of them |
| KrbServer.NumbersRunFromBindIntoTraffic | msldapprobe/krb_methods.py:457-488 | the security-layer reply goes out under 0 and the k-th message under k + 1, octet by octet, with one key, sealed exactly if confidentiality was picked |
| KrbServer.ServerReadsTheChoice | msldapprobe/krb_methods.py:451-488 | in every run accepted in rounds the server verifies the reply to four octets: 1, 2 or 4 for no layer, integrity or confidentiality, and its own maximum buffer; traffic is then absent, unsealed or sealed |
| KrbServer.HonestServerIsAccepted | msldapprobe/krb_methods.py:380-490 | whatever the opening (AP-REP with or without a subkey, nothing, or the offer), key type and layer, the client's one conversation with a server that plays by RFC 4752 is accepted under the key the server chose |
| KrbServer.LatestApRepGoverns | msldapprobe/krb_methods.py:193-225 | over SPNEGO the latest AP-REP, bare or framed and anywhere in a negTokenResp, decides the key: its subkey, else the session key, and none if it does not verify |
| KrbServer.NoApRepKeepsTheKey | msldapprobe/krb_methods.py:214-225 | without one the proposed subkey stands, or else the session key |
| NtlmBind.BindSicily | msldapprobe/ntlm_methods.py:63-112 | two requests, the first reply must be success; bound only on acceptance, with a layer exactly when the method has one, numbering from zero |
| NtlmBind.BindSpnego | msldapprobe/ntlm_methods.py:163-257 | the same with a mechListMIC where the flags call for one, and numbering from one exactly then |
| NtlmBind.BindGssapi | msldapprobe/ntlm_methods.py:313-351 | the same without a MIC, numbering from zero |
| NtlmWire.SignaturesCountUp | msldapprobe/ntlm_layers.py:259-268 | under extended session security signatures are numbered one apart, whatever is received in between |
| NtlmBind.NumbersStartWithTheMic | msldapprobe/ntlm_methods.py:207-243 | 0, 1, 2, ... are used once each over MIC and traffic |
| NtlmBind.SignMechList | msldapprobe/ntlm_methods.py:207-243 | on the heap: the MIC comes off a cipher object of its own under number 0, the strategy's counters move to 1, and its cipher objects are left at the start of their keystreams |
| NtlmBind.MicOctets | msldapprobe/ntlm_methods.py:207-233 | the mechListMIC octet by octet: with SIGN a signature of the mechanism list under number 0 from the start of the client's keystream, else a zero checksum, and none without extended session security or where neither SIGN nor an announced MIC asks for one |
| NtlmBind.TrafficAfterBind | msldapprobe/ntlm_methods.py:163-351 | the k-th message after each of the three binds, from the flags alone: number k, or k + 1 where SPNEGO sent a MIC; one running keystream over Sicily, restarts for SEAL without SIGN over the other two |
| DigestBind.BindDigestMd5 | msldapprobe/digest_md5_methods.py:353-524 | against every server: the challenge is answered exactly when it has a nonce and, for auth-conf, offers the cipher, and the closing round asked for exactly when it is due; accepted if and only if the first answer is success or an answered challenge ends in success with the server's proof, where given, verified; an exception exactly for a challenge without credentials; a signing transport lacks a layer exactly when the first answer is success |
| DigestBind.LayerByChoice | msldapprobe/digest_md5_methods.py:498-521 | auth-int under the two signing keys in their directions, auth-conf under all four and the cipher named, from number zero and the cipher's start |
| DigestBind.ImmediateSuccessLeavesNoLayer | msldapprobe/digest_md5_methods.py:370-386 | at a server that says success at once, the bind is accepted and the next send raises for want of a layer |
| Search.SearchAll | msldapprobe/transport.py:478-512 | the loop computes SearchOn; and from every server that pages, however the results are split over reads, all records come in order, to the answers or the callback, for one request per page under consecutive IDs, with what follows left unread |
| Search.PagedSearchAccounts | msldapprobe/transport.py:478-512 | for every server whose pages end in one searchResDone at the end of a batch, however the results are split: one request per page and all records in order |
| Search.FailureEndsTheSearch | msldapprobe/transport.py:478-512 | a searchResDone that is not a success ends the search at once, after any pages and batches, with the records so far and one request per page begun |
| Search.CloseEndsTheSearch | msldapprobe/transport.py:483-490 | a connection that closes inside a page is an error |
| Search.BatchIsReadToItsEnd | msldapprobe/transport.py:491-511 | what stands behind a successful searchResDone in its batch is still read |
| EndToEnd.AllArrive | msldapprobe/layers.py:16-25 | through a dependable layer any list of texts within the numbers left is sent without an exception and fits its receiver, and both ends can go on from there |
| EndToEnd.ResponseIsOneBatch | msldapprobe/transport.py:337-353 | a response read message by message is complete at its last message and not before |
| EndToEnd.BatchArrives | msldapprobe/transport.py:168-189 | texts that complete a batch with the last of them come back joined from one receive, or as the Notice of Disconnection they carry, whatever stands behind them |
| EndToEnd.CutResponseArrives | msldapprobe/transport.py:355-403 | a response whose octets are cut into frames anywhere, inside messages too, comes back whole from one receive through any dependable layer |
| EndToEnd.ReceiveCutResponse | msldapprobe/transport.py:355-403 | the same on a transport whose network cuts the stream again: recv_raw returns the response whole and leaves what follows |
| EndToEnd.SendEach | msldapprobe/transport.py:152-171 | sends one after another put every wrapped, prefixed message on the socket in order, under consecutive IDs |
| EndToEnd.Exchange | msldapprobe/transport.py:355-403 | two transports: what one sends, message by message, cut up by the network in any way, is what one receive of the other returns, and both can go on |
| EndToEnd.NtlmIsDependable | msldapprobe/ntlm_layers.py:241-333 | the NTLM strategy carries all that in every regime, up to 2^32 messages: whole messages to a receiver whose peer sends in the clear, and anything to one that has latched |
| EndToEnd.ConfIsDependable | msldapprobe/digest_md5_methods.py:196-245 | so does auth-conf under every cipher |
| EndToEnd.IntIsDependable | msldapprobe/digest_md5_methods.py:126-137 | so does auth-int |
| EndToEnd.KrbIsDependable | msldapprobe/krb_layers.py:461-493 | so does the Kerberos strategy for every key type and layer, up to the width of its number, where the library's own wrappers add less than 64 KiB |

## Left out

- Sockets, TLS, StartTLS, channel-binding tokens, name-resolution patching and
  connection set-up: a socket is a list of non-empty chunks; recv's cap of 8192
  octets is not modelled, since any chunking is allowed.
- Transport.LDAPTransport.RecvRaw: the base class's recv_raw, to which unbound or unsigned connections are passed on, is not part of this model; the result says only that the call was passed on.
- Search.SearchAll: it reads batches of decoded messages, each what one receive returns, and a server that pages is stated on those; the octets below them are the concern of RecvRaw and Exchange.
- EndToEnd.NtlmIsDependable: a first sealed body whose ciphertext looks like an LDAPMessage is the exception FirstBodyDecides describes, so a receiver of sealed bodies is taken once latched.
- RC4, DES, MD5, HMAC, the Kerberos checksums, GSS_Wrap_LDAP and
  GSS_Unwrap_LDAP, MechIndepToken, pyasn1 and the Type 3 construction are
  uninterpreted functions with stated lengths and round trips. impacket's MAC
  is not part of this model: as the comments at
  `msldapprobe/ntlm_layers.py:312-324` say, it puts eight octets through the
  handle with extended session security and twelve without; a number past 32
  bits makes it raise before it touches the handle.
- NtlmLayer.NTLMLayerStrategy.UnwrapMessage: signatures are consumed and not verified, as in the source, so nothing is claimed about altered messages.
- DigestMd5.IntSessionIsFaithful: MACs are cut off and not verified, as in the source, so nothing is claimed about altered messages.
- Flag words are records of the bits that decide something; kxkey_branch,
  build_type1, the AV_PAIR editing and the Type 3 MIC are left out as easy or
  library plumbing.
- Ticket acquisition, AP-REQ fields and credential caches: a bind starts from
  its AP-REQ and keys.
- The transport holds its strategy as the value its class stands for, not as a
  reference to the object.
- send_bind's failure when the peer closes the connection, which raises, is not
  one of the replies a server can give.
- DIGEST-MD5 challenge parsing and the response string, rspauth included, are
  functions of the challenge; triple DES keys the library would reject as
  degenerate are not singled out.
- The text of error messages, and the Notice of Disconnection's decoding: a
  notice is a function of the plaintext.
- Command line, method selection, credentials and reporting.

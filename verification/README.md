# Ghost protocol: a Dafny model

The Ghost proxy carries a byte stream from a local SOCKS5 client to a remote target. The stream is read
in chunks, wrapped into frames, sealed, cut into small writes and read back on the other side; on Android
it first passes through a userspace TCP NAT. This project models those components and proves that
the bytes come out as they went in, and exactly when they do not.

| file | models |
|---|---|
| `Bytes.dfy`, `Utf8.dfy`, `Buffers.dfy` | machine integers and casts, big-endian words, Rust strings, the `bytes` crate's cursor |
| `Codec.dfy`, `CodecProofs.dfy` | `TargetAddr` and `GhostFrame` (ghost-common): imperative coder and decoder, their exact relation |
| `SealedBox.dfy` | the AEAD as two laws, `GhostCipher` on top of it, and an instance that meets the laws |
| `Framing.dfy` | length-prefixed sealed frames; the receive loop as a function of the bytes it is given |
| `Streams.dfy` | socket halves under an adversarial network: any segmentation, end of file, faults, short acceptance |
| `TunnelLoops.dfy`, `Hello.dfy` | the forwarding loops and the session set-up of ghost-client and ghost-server |
| `TunnelSteps.dfy`, `Session.dfy` | one direction as a step system; both directions with the two `select!`s |
| `Assurance.dfy` | which sessions deliver everything, given what the two `select!`s break by themselves |
| `Nat.dfy`, `TcpSession.dfy` | ghost-tun's reading of datagrams, flow table and channels, and the per-flow TCP endpoint |
| `Fragment.dfy` | the fragmenting writer over a socket that may stall, fail or take part of a write |
| `Socks5.dfy` | the SOCKS5 parser of ghost-client and the connector of ghost-tun |
| `HexIds.dfy`, `RealityAuth.dfy`, `Ja4.dfy` | hexadecimal ids, the token search, the JA4 fingerprint |

Code that works in place is a class or a method over arrays and streams (`BytesMut`, `ReadHalf`, `WriteHalf`,
`TcpNatTable`, `TunProcessor`, `TunChannel`, `FragmentedStream`, the loops). Each such method is tied to a
specification function of its input, and the lemmas relate that function to something defined independently:
the other side's encoder, the history, an in-order peer, a plain poll loop. The upload loop of the client and
the download loop of the server are the same code, as are the other two, so each pair is modelled once.

Where the behaviour is not what the comments or RFC 1928 suggest, the model follows the code:

- The frame decoder ignores trailing bytes and reads padding shorter than announced as none.
- The local SOCKS5 parser overruns its 256-byte buffer on a 255-byte domain name (`Socks5.LongestDomainOverruns`).
- The tun connector reads the reply's ATYP twice, so it refuses the local proxy's success reply
  (`Socks5.ConnectorRefusesLocalProxy`; `Socks5.ConnectorExact` gives the replies it does accept).
- `u8::from_str_radix` takes a plus sign, so a user id may be written with one (`HexIds.ReencodeIsCanonical`),
  and a character of several bytes across the end of a pair makes the client panic (`HexIds.SlicePanicHappens`).
- The token ghost-client sends is the hexadecimal form of 18 bytes, while the Reality server compares only tokens of
  64 characters, so every server refuses that request (`RealityAuth.ClientTokenRefused`).
- When one loop of a session ends, `select!` drops the other and the process closes its connection. So an application
  that half-closes can lose the reply (`Assurance.HalfCloseLosesTheReply`); and since the other process then fails to
  write to the closed connection, or has it reset over bytes left unread, its own `select!` can drop the rest of the
  request. Without any failure from outside the whole request arrives in every run exactly when there is none, or the
  target keeps its stream open and either the application does too or there is no reply (`Assurance.UploadIsAssured`).
- The tun takes everything behind the two headers for payload and does not look at the IPv4 total length.
- A tun session that ends by itself keeps its table entry until a FIN or RST (`Nat.EndedSessionHoldsItsFlow`).
- Dropping a `JoinHandle` does not stop its task, so the `select!` at the end of `run_tcp_session` cuts nothing.

## Model

| member | source | states |
|---|---|---|
| Codec.EncodeAddr | ghost-common/src/lib.rs:89-116 | appends exactly the address bytes; a domain over 255 bytes is refused after its type byte |
| Codec.EncodeFrame | ghost-common/src/lib.rs:254-269 | the frame's bytes, or the panic exactly for a domain over 255 bytes |
| Codec.DecodeAddr | ghost-common/src/lib.rs:119-181 | the cursor decoder's result and leftover, errors included |
| Codec.DecodeFrame | ghost-common/src/lib.rs:272-335 | the frame decoder's result, errors included |
| CodecProofs.AddrDecoderExact | ghost-common/src/lib.rs:89-181 | an address is decoded, leaving a rest, if and only if the input is its encoding followed by that rest |
| CodecProofs.AddrEncodingsPrefixFree | ghost-common/src/lib.rs:89-116 | no encoding of an address is a prefix of another's |
| CodecProofs.AddrBytesLength | ghost-common/src/lib.rs:184-191 | `encoded_len` is the number of bytes written |
| CodecProofs.FrameBytesLength | ghost-common/src/lib.rs:255-258 | the precomputed total is the encoded length |
| CodecProofs.FrameDecoderExact | ghost-common/src/lib.rs:254-335 | the decoder yields f from exactly the inputs that extend f's encoding, or end in short padding |
| CodecProofs.FrameRoundTrip | ghost-common/src/lib.rs:254-335 | encode, append anything, decode gives the frame back if and only if it is well-formed |
| CodecProofs.FrameEncodingInjective | ghost-common/src/lib.rs:254-269 | different well-formed frames have different encodings |
| CodecProofs.TruncatedFrame | ghost-common/src/lib.rs:272-326 | a cut before the padding length underflows with need above have; a later cut loses only the padding |
| CodecProofs.Be16Layout | ghost-common/src/lib.rs:262-263 | a 16-bit field has its high byte first, written and read |
| CodecProofs.AddrLayout | ghost-common/src/lib.rs:89-116 | the bytes of each address form, type byte and port order included |
| CodecProofs.FrameLayout | ghost-common/src/lib.rs:254-269 | the bytes of a frame: version, user id, address, both lengths, payload, padding |
| CodecProofs.AddrRefusals | ghost-common/src/lib.rs:119-181 | what the address decoder refuses, with which error, and what it leaves unread |
| CodecProofs.FrameErrorsExact | ghost-common/src/lib.rs:272-335 | every error of the frame decoder exactly, underflows with the field that was cut |
| Utf8.ValidIsEncoded | ghost-common/src/lib.rs:172-176 | a domain is taken for text exactly when it is the encoding of a sequence of scalar values |
| SealedBox.DecryptInvertsEncrypt | ghost-crypto/src/lib.rs:79-121 | opening undoes sealing and a box is 28 bytes longer |
| SealedBox.TagOnlyIsLawful | ghost-crypto/src/lib.rs:79-121 | the two cipher laws have a model |
| Framing.OpenFrameExact | ghost-crypto/src/lib.rs:98-121 | a body opens exactly when it holds a nonce, a tag and what the cipher opens to an encoded frame; which failure it is otherwise |
| Framing.OuterLengthFaithful | ghost-client/src/tunnel.rs:132-135 | the 16-bit length of a data frame is right exactly when chunk + padding + 49 is at most 65535 |
| Framing.LoopFramesFit | ghost-client/src/tunnel.rs:110-135 | no cast in a loop-built frame loses anything and the receiver's buffer holds it |
| Framing.InitFrameFits | ghost-client/src/tunnel.rs:85-97 | the same for the init frame of any encodable address |
| Framing.SizeCheckNeverTrips | ghost-server/src/handler.rs:99-103 | the receiver's size check fails on no input at all |
| Framing.WholeIsMaximal | ghost-server/src/handler.rs:90-133 | the number of whole records in a wire prefix is the largest that fits |
| Framing.ReceiveWirePrefix | ghost-server/src/handler.rs:86-134 | any prefix of a wire yields the payloads of its whole frames, and the loop waits for more, at a boundary exactly when nothing is left over |
| Framing.ReceiveWholeWire | ghost-server/src/handler.rs:86-134 | the whole wire yields the whole stream and ends at a boundary |
| Framing.ReceiveExact | ghost-client/src/tunnel.rs:153-201 | on any bytes, forged ones too: the payloads of the sealed frames at the front, up to the first that is incomplete or does not open |
| Streams.ChunksCarryTheStream | ghost-client/src/tunnel.rs:110-119 | successive reads carry the stream in order, 1 to 8192 bytes each |
| Streams.ReadHalf.ReadExact | ghost-server/src/handler.rs:91-108 | `read_exact` depends on the bytes alone, not on their segmentation |
| TunnelLoops.SendLoop | ghost-client/src/tunnel.rs:109-151 | writes the wire of the chunks it reads, cut where the socket stops accepting |
| TunnelLoops.RecordOfTurn | ghost-client/src/tunnel.rs:121-143 | record i of the wire carries turn i's nonce and opens to version 1, the link's user id, no target, chunk i and turn i's padding |
| TunnelLoops.NoncesAreFresh | ghost-crypto/src/lib.rs:79-92 | if draws do not repeat a nonce, no two records of a stream are sealed under the same one |
| TunnelLoops.ReadsFillTheBuffer | ghost-client/src/tunnel.rs:110-119 | a read takes 8192 bytes if as many are at hand, else all |
| TunnelLoops.ReceiveLoop | ghost-server/src/handler.rs:86-134 | writes what the received bytes decode to, cut where the target stops accepting |
| TunnelLoops.LoopsCarryTheStream | ghost-client/src/tunnel.rs:153-201 | for every chunking, padding and cut of the wire the receive loop delivers a prefix of the source, all of it for the whole wire |
| Hello.AcceptClient | ghost-server/src/handler.rs:27-75 | user id, authorisation, init frame and target, with every refusal and the unread rest |
| Hello.SendHello | ghost-client/src/tunnel.rs:79-97 | clear-text id, then the init record, cut where the socket stops accepting; the panic exactly on an over-long domain once the id is out |
| Hello.DestinationPreserved | ghost-server/src/handler.rs:30-65 | the server recovers the client's id and target from any padding and nonce and reads nothing past them |
| Hello.HelloLayout | ghost-client/src/tunnel.rs:79-97 | the client's first bytes: id, length, nonce, and a seal on version 1, its id, the target, no payload and the padding |
| Hello.AdmissionExact | ghost-server/src/handler.rs:27-65 | admitted exactly for an allowed id and one whole sealed frame that names a target |
| Hello.RefusalExact | ghost-server/src/handler.rs:27-65 | each refusal exactly |
| Hello.ConfiguredClientServed | ghost-server/src/handler.rs:32-39 | a configured id, however spelled, is admitted exactly when the list holds its canonical spelling |
| TunnelSteps.StepKeepsInv | ghost-client/src/tunnel.rs:109-151 | partial writes, deliveries, cuts, faults and cancellation all keep sender and receiver aligned |
| TunnelSteps.RunIsSafe | ghost-server/src/handler.rs:86-185 | in every reachable state the target holds a prefix of the source: the payloads of the frames wholly read, which is also what the receive loop computes |
| TunnelSteps.RunIsShort | ghost-client/src/tunnel.rs:109-151 | every run of a direction, whatever fails in it, is bounded in the length of the source |
| TunnelSteps.StepBurnsFuel | ghost-client/src/tunnel.rs:109-151 | a measure falls with every step |
| TunnelSteps.EndOfFileIsTheEnd | ghost-server/src/handler.rs:86-134 | in any run, a receiver that saw end of file has the whole source exactly when every byte of every record arrived |
| TunnelSteps.DrainedIsComplete | ghost-server/src/handler.rs:86-134 | with the source open or ended, once only failures are left to happen the output is the source |
| TunnelSteps.RunIsComplete | ghost-client/src/tunnel.rs:109-151 | a failure-free run that has come to rest has delivered everything, and both loops ended by end of file |
| TunnelSteps.AnyCutHappens | ghost-client/src/tunnel.rs:109-151 | the safety bound is tight: for any division into records and any byte of the wire there is a run that breaks there and delivers the whole frames before it |
| TunnelSteps.AnyPartMoves | ghost-server/src/handler.rs:86-134 | writes, deliveries and reads of any size are possible |
| TunnelSteps.LoopsCanFail | ghost-client/src/tunnel.rs:109-151 | each loop can fail or be dropped at any await, with all else as it was |
| TunnelSteps.FeedIsReceive | ghost-server/src/handler.rs:86-134 | on any input the receiver of the step system ends as the receive loop does and writes the same |
| TunnelSteps.AbsorbSplits | ghost-server/src/handler.rs:90-108 | the bytes of one read may as well come in two |
| Session.SessionIsSafe | ghost-client/src/tunnel.rs:203-206 | with both directions and both selects, each end always holds a prefix of the other's stream |
| Session.SessionIsShort | ghost-client/src/tunnel.rs:203-206 | no session, whatever fails in it, goes on for longer than a bound in the two streams' lengths |
| Session.MirroredTrace | ghost-server/src/handler.rs:136-180 | download and upload are the same system with the ends exchanged |
| Session.SelectFreezesTheReply | ghost-client/src/tunnel.rs:203-206 | after the client's select no further reply byte is ever delivered |
| Assurance.UploadIsAssured | ghost-server/src/handler.rs:182-185 | if only the selects cause failures, the request arrives whole in every run to the end if and only if it is empty, or the target stays open and either the application does too or there is no reply |
| Assurance.DownloadIsAssured | ghost-client/src/tunnel.rs:203-206 | the mirror image for the reply |
| Assurance.UploadIsComplete | ghost-server/src/handler.rs:182-185 | if the target stays open and not even a write to a closed connection fails, every run to the end delivers the request |
| Assurance.DownloadIsComplete | ghost-client/src/tunnel.rs:203-206 | the mirror image for the reply |
| Assurance.SelectsLoseTheRequest | ghost-client/src/tunnel.rs:203-206 | whatever the request, as soon as there is a reply the two selects alone can lose all of it |
| Assurance.SelectsLoseTheReply | ghost-server/src/handler.rs:182-185 | the mirror image: a target that closes after its reply, and an application still sending |
| Assurance.AssuredAfterSelect | ghost-client/src/tunnel.rs:203-206 | once the client's select has fired with the target open, the request is safe in every continuation if and only if the server has nothing left to write and either the client left nothing unread or the last of the request is already being written |
| Assurance.RunOn | ghost-server/src/handler.rs:182-185 | every state of a session can be run on until nothing is left to do |
| Assurance.SessionIsOver | ghost-server/src/handler.rs:182-185 | a run taken to its end leaves both processes gone if an outer end closes, and both running if neither does |
| Assurance.HalfCloseLosesTheReply | ghost-client/src/tunnel.rs:203-206 | for every request and reply, an application that closes after its request can lose the entire reply without any failure |
| Nat.KeySeparatesFlows | ghost-tun/src/tcp_session.rs:29-37 | two packets share a key exactly when their addresses and ports agree |
| Nat.TunProcessor.HandleTcp | ghost-tun/src/lib.rs:103-176 | one segment's effect on table and channels |
| Nat.TunProcessor.ProcessPacket | ghost-tun/src/lib.rs:79-101 | a datagram's effect, byte for byte, and for which it returns an error |
| Nat.DatagramExact | ghost-tun/src/lib.rs:84-114 | a datagram is handled as a segment exactly when it is an IPv4 header, a TCP header, each built field by field with any options, and that segment's payload; every other one changes nothing |
| Nat.RunRefinesHistory | ghost-tun/src/lib.rs:136-173 | after any history a flow is in the table exactly when opened and not closed since; each session was started with its SYN's number and destination, and its channel holds exactly its payloads up to FIN or RST, with a FIN's empty marker |
| Nat.FlowsDoNotInterfere | ghost-tun/src/lib.rs:117-173 | a flow's entry and channels depend on that flow's events alone |
| Nat.EndedSessionHoldsItsFlow | ghost-tun/src/lib.rs:141-172 | after its task ends, a session's entry stays, new SYNs open nothing and data is lost until FIN or RST |
| TcpSession.RunToTun | ghost-tun/src/tcp_session.rs:88-203 | the segments a session emits: RST on a failed connect, else SYN-ACK, data, FIN-ACK |
| TcpSession.SocksToTun | ghost-tun/src/tcp_session.rs:158-203 | the loop's 32-bit counter is 1 plus the stream offset modulo 2^32 at every segment |
| TcpSession.ChannelToSocks | ghost-tun/src/tcp_session.rs:207-222 | writes the queued payloads in order, skipping the marker, up to a write failure |
| TcpSession.UplinkCarriesTheFlow | ghost-tun/src/tcp_session.rs:207-222 | a session's queue holds the bytes of its flow's segments between its SYN and its close |
| TcpSession.SegmentsTileTheStream | ghost-tun/src/tcp_session.rs:150-183 | segment i carries chunk i, from the flow's destination back to its source, with ACK, PSH and the number of its stream offset |
| TcpSession.EmittedLayout | ghost-tun/src/tcp_session.rs:88-203 | the SYN-ACK, the FIN-ACK and the RST of a failed connect, field by field |
| TcpSession.SegmentsFillTheBuffer | ghost-tun/src/tcp_session.rs:157-164 | a segment takes 8192 bytes if as many are at hand, else all |
| TcpSession.HandshakeAnswersTheSyn | ghost-tun/src/tcp_session.rs:98-148 | the SYN-ACK opens, and the RST refuses, the connection of the application whose SYN they answer, and no other |
| TcpSession.PeerRebuildsTheStream | ghost-tun/src/tcp_session.rs:124-203 | the application that sent the SYN, taking only segments from its remote to itself with an acceptable acknowledgment and number RCV.NXT, rebuilds the stream exactly, of any length, and then its end; on a failed connect it is refused |
| TcpSession.SessionAnswersItsSyn | ghost-tun/src/lib.rs:141-160 | after any history each session's segments are the answer to the packet that opened it |
| TcpSession.NumbersCoincide | ghost-tun/src/tcp_session.rs:150-182 | two offsets share a number exactly when they are whole words apart |
| TcpSession.PeerNeverMisorders | ghost-tun/src/tcp_session.rs:150-183 | under loss, repetition and reordering within 2^32 bytes the application holds whole chunks in order, all of them once closed |
| TcpSession.SerialOrderFaithful | ghost-tun/src/tcp_session.rs:150-182 | serial-number order is stream order within 2^31 bytes |
| TcpSession.SerialReassembly | ghost-tun/src/tcp_session.rs:150-183 | a permutation of segments spanning at most 2^31 bytes is in serial order exactly when it is the original |
| Fragment.FragmentedStream.PollWrite | ghost-client/src/fragment.rs:101-127 | one poll's effect on socket and budget |
| Fragment.FragmentedStream.FragmentedWrite | ghost-client/src/fragment.rs:54-87 | the async loop's effect on socket and budget, and its result |
| Fragment.PollKeepsBudget | ghost-client/src/fragment.rs:101-127 | remaining is the budget less what was emitted; no early offer exceeds a fragment or straddles the budget |
| Fragment.PollsAreTransparent | ghost-client/src/fragment.rs:101-127 | under any answers the bytes go out once and in order |
| Fragment.BudgetCovered | ghost-client/src/fragment.rs:35-50 | a spent budget took at least budget / fragment size writes, rounded up |
| Fragment.FragmentedIsPolls | ghost-client/src/fragment.rs:54-87 | `fragmented_write` leaves socket, budget and unwritten bytes as some number of polls would |
| Fragment.OffersAreExact | ghost-client/src/fragment.rs:101-127 | every offer is a whole fragment, cut at the end of budget or buffer, or behind the budget all that is left |
| Fragment.FragmentedEndsHow | ghost-client/src/fragment.rs:54-87 | stuck, failed or done exactly as the socket's answers say, with at most one write behind the budget |
| Fragment.LoopEnds | ghost-client/src/fragment.rs:62-78 | with a socket that makes progress the loop ends, within one write per byte, having spent budget or buffer |
| Socks5.BuildReply | ghost-client/src/lib.rs:191-220 | the reply's bytes |
| Socks5.HandleClient | ghost-client/src/lib.rs:70-181 | outcome, answers and unread rest of the handshake, for every input and a failing writer |
| Socks5.ParseConnect | ghost-client/src/lib.rs:80-181 | a greeting with NO AUTH and a CONNECT request are answered with success and consumed exactly |
| Socks5.ParserExact | ghost-client/src/lib.rs:80-171 | a target is accepted, leaving a rest, if and only if the input is such a greeting and request for it |
| Socks5.LongestDomainOverruns | ghost-client/src/lib.rs:144-151 | the 256-byte buffer is overrun exactly by a CONNECT for a 255-byte domain |
| Socks5.ClientRefusals | ghost-client/src/lib.rs:80-171 | every other refusal exactly, by where the client's bytes go wrong |
| Socks5.ClientHears | ghost-client/src/lib.rs:80-181 | what the client hears in each case, byte for byte |
| Socks5.ClientLeavesUnread | ghost-client/src/lib.rs:80-171 | what a refused client's bytes leave unread |
| Socks5.TargetIsAddrField | ghost-common/src/lib.rs:89-116 | a frame names its target as SOCKS5 does |
| Socks5.RequestReachesServer | ghost-client/src/lib.rs:110-185 | every target the parser accepts is the one the server behind the tunnel admits |
| Socks5.EncodeSocketAddr | ghost-tun/src/socks5.rs:95-108 | appends the address field |
| Socks5.ConnectThroughProxy | ghost-tun/src/socks5.rs:23-60 | what the connector says and concludes, for every reply and a failing writer |
| Socks5.SkipSocksAddr | ghost-tun/src/socks5.rs:111-132 | what it skips and leaves unread |
| Socks5.ProxyUnderstandsConnector | ghost-tun/src/socks5.rs:28-44 | the local proxy consumes exactly the connector's bytes and reads its target, IPv6 flow and scope apart |
| Socks5.SkipExact | ghost-tun/src/socks5.rs:111-132 | succeeds exactly on a complete address field |
| Socks5.ReplyFieldSkipped | ghost-client/src/lib.rs:191-220 | an address field of a reply is skipped whole from its ATYP byte exactly when its domain, if any, is at most 255 bytes |
| Socks5.ReadSocksAddr | ghost-tun/src/socks5.rs:135-158 | what it reads and leaves unread |
| Socks5.ReplyAddressRecovered | ghost-tun/src/socks5.rs:135-158 | exactly the IP address fields are read, each back to its address and whole |
| Socks5.ConnectorExact | ghost-tun/src/socks5.rs:31-57 | the connector succeeds exactly when a complete address field follows the reply's first four bytes |
| Socks5.ConnectorRefusals | ghost-tun/src/socks5.rs:31-57 | every other end of the connector exactly, what it leaves unread and what it has said by then |
| Socks5.ConnectorRefusesLocalProxy | ghost-tun/src/socks5.rs:46-57 | it therefore refuses the local proxy's success reply, whatever follows |
| HexIds.ParseHex | ghost-client/src/tunnel.rs:22-33 | accepts exactly the spellings of an id of the given length; each failure, the panic included, exactly for its inputs |
| HexIds.PairExact | ghost-client/src/tunnel.rs:29 | a pair is read as two digits of either case, or as a plus sign and one |
| HexIds.DashesRemoved | ghost-client/src/tunnel.rs:23 | the dashes go, and nothing else |
| HexIds.HexLayout | ghost-server/src/handler.rs:207-209 | each byte is written as its high and its low digit, in lower case |
| HexIds.SlicePanicHappens | ghost-client/src/tunnel.rs:29 | a configured id that panics |
| HexIds.ParseInvertsEncode | ghost-client/src/tunnel.rs:340-354 | parsing the hexadecimal form of an id gives that id and no other |
| HexIds.ReencodeIsCanonical | ghost-server/src/handler.rs:207-209 | every parsed spelling re-encodes to one canonical spelling, its own lower case exactly when it holds no plus sign |
| RealityAuth.FirstMarkerDecides | ghost-reality/src/reality_server.rs:159-180 | whatever the request holds, the word after its first marker is accepted exactly when it is the configured key's hexadecimal form |
| RealityAuth.AuthAcceptedExactly | ghost-reality/src/reality_server.rs:159-180 | a request is accepted if and only if its first marker is followed by that form as a whole word |
| RealityAuth.TokenAcceptedExactly | ghost-reality/src/reality_server.rs:159-190 | a request carrying the token of a key, with any white space around it, is accepted exactly by the server configured with that key |
| RealityAuth.ClientTokenRefused | ghost-client/src/tunnel.rs:236-246 | the request ghost-client itself sends is refused by every server |
| RealityAuth.LossySplits | ghost-reality/src/reality_server.rs:162 | the lossy conversion splits in front of any ASCII byte, even after a broken sequence |
| RealityAuth.LossyOfText | ghost-reality/src/reality_server.rs:162 | well-formed text is converted to its characters |
| RealityAuth.SubpartIsMaximal | ghost-reality/src/reality_server.rs:162 | one replacement character stands for the longest start of a character there is, or for one byte |
| RealityAuth.IllFormedIsReplaced | ghost-reality/src/reality_server.rs:162 | ill-formed bytes give one replacement character, and the conversion goes on behind them |
| RealityAuth.MarkerSpelled | ghost-reality/src/reality_server.rs:163-164 | the marker, character by character |
| RealityAuth.WhitespaceListed | ghost-reality/src/reality_server.rs:167-171 | the 25 white space characters |
| Ja4.SimpleHash | ghost-reality/src/ja4.rs:206-213 | the loop computes the FNV-1a fold, in eight digits |
| Ja4.CalculateJa4 | ghost-reality/src/ja4.rs:177-203 | the fingerprint of a profile |
| Ja4.FingerprintLayout | ghost-reality/src/ja4.rs:177-203 | the 23 characters: version, counts, first and last cipher, and the hash of the extensions in ascending order |
| Ja4.FnvVectors | ghost-reality/src/ja4.rs:206-213 | the hash has the values published for FNV-1a |
| Ja4.ExtensionOrderIrrelevant | ghost-reality/src/ja4.rs:186-192 | every permutation of the extensions gives the same fingerprint |
| Ja4.StepSeparates | ghost-reality/src/ja4.rs:208-211 | a hash step is injective in the state and in the byte |
| Ja4.OneByteSeparates | ghost-reality/src/ja4.rs:206-213 | texts that differ in exactly one byte have different hashes |

## Left out

- ChaCha20-Poly1305, HKDF and nonce generation: the cipher is a parameter with two laws, the keys are a function of the user id, and paddings and nonces are arbitrary parameters. Rejection of forged boxes is not claimed, and that draws do not repeat a nonce is a hypothesis.
- TLS, certificates and the ClientHello parser: foreign libraries.
- IP and TCP checksums and the headers of emitted segments: those are records of their fields. Headers that are read follow section 3.1 of RFC 791 and section 3.1 of RFC 9293, as the header slices of etherparse do.
- What a connection reset destroys: any byte not yet read may or may not be lost.
- Name resolution and the connection to the target: the model ends at the target address and starts again at its byte stream.
- Timers, fragment delays, flushes and logging: the inner socket's flush is taken to succeed, as a TCP socket's does.
- The session set-up is not part of the step system of `TunnelSteps.dfy`, which starts after it; `Hello.dfy` treats it as a straight exchange over any segmentation.
- The step system models a read as taking any non-empty part of what the source still has; the source is finite in every run.
- A failing encryption: the cipher seals every frame the loops build.
- Acknowledgements to the tun client: the code never advances the acknowledgement number, so nothing is claimed about it.
- UDP ASSOCIATE, IPv6 on the tun and the ghost-reality client wrapper: unimplemented or stubs in the repository.
- The stealth helpers, the mobile application and its life cycle, and all configuration loading: not on the path of the stream.

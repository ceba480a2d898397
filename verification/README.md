# BitBox peer node, modelled in Dafny

BitBox is a peer-to-peer file synchroniser. Each node watches a shared
directory and tells its peers about every change: directory and file
creations and deletions, file modifications, and the file bytes that peers
ask for. The messages are JSON documents. They travel over TCP, with one
message per line, or over UDP, with one message per datagram and
retransmission of requests that get no answer. A separate client protocol
lets an authorised client list, connect and disconnect peers. The
client's session key is sent RSA-encrypted, and its traffic is
AES-encrypted.

This project models the core of the node:

- `java_types.dfy` (`JavaTypes`): Java `int` and `long`, and the casts and
  wrap-around the code relies on.
- `document.dfy` (`Documents`): the parsed JSON document, its typed getters,
  and the file descriptor document.
- `connected_peer.dfy` (`ConnectedPeers`): `ConnectedPeer`. This covers its
  document form, `equals` and `hashCode`, and the `host:port` parser
  (`String.split` and `Integer.parseInt`).
- `messages.dfy` (`Messages`): the 24 protocol classes as one datatype.
  This covers `isRequest`, `pairTo` as written, and the intended pairing.
- `codec.dfy` (`Codec`): each class's `toString` (the document it writes) and
  its `convert`, plus `ProtocolHelper.convertProtocol`.
- `codec_laws.dfy` (`CodecLaws`): what reading a written message gives back.
- `events.dfy` (`Events`): `EventHandler.handleEvent`.
- `transfer.dfy` (`Transfer`): the block arithmetic of file transfer, and the
  schedule of byte requests it produces.
- `dispatcher.dfy` (`Dispatcher`): `RequestHandler.handleRequest` and its
  helpers. The file-system manager's answers are parameters (`Outcomes`).
  Its side effects are returned as a list of `Effect`s.
- `pending.dfy` (`PendingRequests`): the UDP pending list and its retry scan.
- `udp.dfy` (`UdpSessions`): `UDPCommunicationModule`. It covers the map of
  sessions, the handshake and admission rules, dispatch, retry, sync,
  broadcast and disconnect.
- `tcp.dfy` (`TcpConnections`): `TCPCommunicationModule`. It covers the
  connection list, the handshake handler, the receive filter and dialling.
- `ssh_wire.dfy` (`SshWire`): the SSH-style public-key blob. This means
  length-prefixed fields, two's-complement `mpint`s, and its writer and
  reader from `EncryptHelper`.
- `aes_padding.dfy` (`AesPadding`): the plaintext framing of `aesEncrypt`
  (newline plus random alphanumeric padding) and the trimming loop of
  `aesDecrypt`.

The model follows these conventions:

- A Java exception that a caller catches and turns into `null` is an `Option`.
- An exception the code does not catch is a precondition. For example,
  `convertProtocol` returns instead of throwing on every document that
  satisfies `Codec.Convertible`. The converse fails only for peer entries
  without a host (see "Left out").
- Clocks are `now: int` parameters.
- The random source is a sequence of draws.
- The file system's answers are the `Outcomes` record.
- Messages the node sends are returned as values, never performed.

## Model

| member | source | states |
|---|---|---|
| JavaTypes.LongToInt | src/main/java/unimelb/bitbox/protocol/HandshakeRequest.java:31 | The `(int)` cast of a long keeps values in int range and otherwise agrees with the long modulo 2^32. |
| JavaTypes.WrapLong | src/main/java/unimelb/bitbox/RequestHandler.java:555-559 | A long sum is the exact sum when it fits and is congruent to it modulo 2^64 otherwise. |
| Documents.DescriptorDoc | src/main/java/unimelb/bitbox/EventHandler.java:17-21 | The descriptor document carries exactly md5, lastModified and fileSize, with the given values and the types the readers expect. |
| Documents.Rebuild | src/main/java/unimelb/bitbox/protocol/FileModifyRequest.java:33-54 | Reading a descriptor through its three getters keeps exactly those three fields, unchanged. |
| Documents.RebuildIdentity | src/main/java/unimelb/bitbox/protocol/FileModifyRequest.java:33-54 | A descriptor survives being rebuilt if and only if it has no keys beyond the three fields. |
| ConnectedPeers.ToDoc | src/main/java/unimelb/bitbox/ConnectedPeer.java:46-51 | The peer's document holds its host as a string and its port as a long, and reads back as the same peer. |
| ConnectedPeers.FromDoc | src/main/java/unimelb/bitbox/protocol/HandshakeRequest.java:27-42 | A peer is read exactly when host is a string and port a long; an in-range port is kept as is. |
| ConnectedPeers.Equals | src/main/java/unimelb/bitbox/ConnectedPeer.java:59-66 | `equals` holds exactly for another peer with the same host and port; never for an object of another class. |
| ConnectedPeers.SupplementaryHashesPair | src/main/java/unimelb/bitbox/ConnectedPeer.java:69-70 | A host character beyond the basic plane enters the hash as its two surrogate units, high first, as Java's `String.hashCode` does. |
| ConnectedPeers.EqualPeersHashAlike | src/main/java/unimelb/bitbox/ConnectedPeer.java:59-71 | Equal peers have equal hash codes, so the peer works as a map key. |
| ConnectedPeers.PortsHashApart | src/main/java/unimelb/bitbox/ConnectedPeer.java:68-71 | Two ports of the same host never share a hash code. |
| ConnectedPeers.SplitOnColon | src/main/java/unimelb/bitbox/ConnectedPeer.java:33 | Splitting gives at least one field, and no field contains a colon. |
| ConnectedPeers.DropTrailingEmpty | src/main/java/unimelb/bitbox/ConnectedPeer.java:33 | `split` drops exactly the trailing empty fields and keeps the rest in order. |
| ConnectedPeers.SplitAfterField | src/main/java/unimelb/bitbox/ConnectedPeer.java:33 | A colon-free field followed by a colon splits off as the first field. |
| ConnectedPeers.ParseInt | src/main/java/unimelb/bitbox/ConnectedPeer.java:35 | Only an optional `+` or `-` followed by at least one digit parses, so `"x"` or `"+a"` gives null; a digit string parses to its decimal value. |
| ConnectedPeers.ParseIntToString | src/main/java/unimelb/bitbox/ConnectedPeer.java:35 | Parsing the decimal text of any int gives back the int. |
| ConnectedPeers.ConvertConnectedPeer | src/main/java/unimelb/bitbox/ConnectedPeer.java:31-40 | A `host:port` text yields a peer only if it holds a colon, and the host never contains one; `ConvertFields` states which peer, field by field. |
| ConnectedPeers.ConvertFields | src/main/java/unimelb/bitbox/ConnectedPeer.java:31-40 | For any colon-free host and port field, the host is the first field and the port the parse of the second; later fields are ignored and a port that does not parse gives null. |
| ConnectedPeers.ConvertPeerText | src/main/java/unimelb/bitbox/ConnectedPeer.java:31-40 | Any peer whose host has no colon reads back from its `host:port` text. |
| Messages.PairToCrossesDirection | src/main/java/unimelb/bitbox/protocol/HandshakeRequest.java:55-62 | `pairTo` only ever matches a request with a non-request, never two of one kind. |
| Messages.PairToAgreesWithIntent | src/main/java/unimelb/bitbox/protocol/FileBytesRequest.java:69-76 | Except on the two defective classes, `pairTo` holds if and only if the messages are a request and reply of one exchange, with the same path and, for bytes, the same position. |
| Messages.DirectoryDeleteResponseMispairs | src/main/java/unimelb/bitbox/protocol/DirectoryDeleteResponse.java:66-73 | The directory-delete response pairs with a create request for its path and not with the delete request it answers. |
| Messages.FileModifyResponseMispairs | src/main/java/unimelb/bitbox/protocol/FileModifyResponse.java:77-84 | The file-modify response pairs with a delete request for its path and not with the modify request it answers. |
| Messages.PairToCorrectedIsIntended | src/main/java/unimelb/bitbox/protocol/DirectoryDeleteResponse.java:66-73 | With the two classes fixed, `pairTo` is exactly the intended request/reply pairing. |
| Messages.RequestsPairAsIntended | src/main/java/unimelb/bitbox/protocol/DirectoryCreateRequest.java:49-56 | On requests, the as-written `pairTo` already agrees with the fixed one, so the requests the node waits on are retired by the right replies. |
| Codec.PeerList | src/main/java/unimelb/bitbox/protocol/ConnectionRefused.java:22-32 | A peer list is written entry by entry, in order, as each peer's document. |
| Codec.PeersOf | src/main/java/unimelb/bitbox/protocol/ConnectionRefused.java:34-49 | A peer list reads back if and only if every entry is a document holding a peer; the peers keep order. |
| Codec.Decode | src/main/java/unimelb/bitbox/protocol/ProtocolHelper.java:15-105 | A message is read only from a document with a string command, and its class is the one that command names. |
| Codec.DecodeClient | src/main/java/unimelb/bitbox/protocol/ProtocolHelper.java:77-102 | The client commands are read as the class they name; an unknown command gives null. |
| Codec.ConvertFileModifyResponse | src/main/java/unimelb/bitbox/protocol/FileModifyResponse.java:45-64 | As written, a file-modify response always reads back as a success, whatever its status. |
| Codec.ConvertFileModifyResponseCorrected | src/main/java/unimelb/bitbox/protocol/FileModifyResponse.java:45-64 | The reader with the status honoured builds a file-modify response. |
| CodecLaws.PeerListRoundTrip | src/main/java/unimelb/bitbox/protocol/ConnectionRefused.java:22-49 | A written peer list reads back as exactly the same peers. |
| CodecLaws.EncodeConvertible | src/main/java/unimelb/bitbox/protocol/ProtocolHelper.java:15-105 | `convertProtocol` never throws on a document this node wrote. |
| CodecLaws.OrdinaryConvertible | src/main/java/unimelb/bitbox/protocol/ProtocolHelper.java:15-105 | A document can make `convertProtocol` throw only through the four commands whose readers have no handler. |
| CodecLaws.NormalisesHandshakeRequest | src/main/java/unimelb/bitbox/protocol/HandshakeRequest.java:20-42 | A written handshake request reads back as the same request. |
| CodecLaws.NormalisesHandshakeResponse | src/main/java/unimelb/bitbox/protocol/HandshakeResponse.java:20-42 | A written handshake response reads back as the same response. |
| CodecLaws.NormalisesConnectionRefused | src/main/java/unimelb/bitbox/protocol/ConnectionRefused.java:22-49 | A written refusal reads back with the same peer list. |
| CodecLaws.NormalisesInvalidProtocol | src/main/java/unimelb/bitbox/protocol/InvalidProtocol.java:21-41 | A written invalid-protocol message reads back with the same text. |
| CodecLaws.NormalisesDirectoryCreateRequest | src/main/java/unimelb/bitbox/protocol/DirectoryCreateRequest.java:22-36 | A written directory-create request reads back unchanged. |
| CodecLaws.NormalisesDirectoryCreateResponse | src/main/java/unimelb/bitbox/protocol/DirectoryCreateResponse.java:31-54 | A written directory-create response reads back with the same path, status and message. |
| CodecLaws.NormalisesDirectoryDeleteRequest | src/main/java/unimelb/bitbox/protocol/DirectoryDeleteRequest.java:21-33 | A written directory-delete request reads back unchanged. |
| CodecLaws.NormalisesDirectoryDeleteResponse | src/main/java/unimelb/bitbox/protocol/DirectoryDeleteResponse.java:31-53 | A written directory-delete response reads back with the same path, status and message. |
| CodecLaws.NormalisesFileCreateRequest | src/main/java/unimelb/bitbox/protocol/FileCreateRequest.java:23-46 | A written file-create request reads back with the same descriptor and path. |
| CodecLaws.NormalisesFileCreateResponse | src/main/java/unimelb/bitbox/protocol/FileCreateResponse.java:35-67 | A written file-create response reads back with the same descriptor, path, status and message. |
| CodecLaws.NormalisesFileDeleteRequest | src/main/java/unimelb/bitbox/protocol/FileDeleteRequest.java:23-46 | A written file-delete request reads back with the same descriptor and path. |
| CodecLaws.NormalisesFileDeleteResponse | src/main/java/unimelb/bitbox/protocol/FileDeleteResponse.java:34-69 | A file-delete response reads back if and only if its descriptor is typed, and then unchanged. |
| CodecLaws.NormalisesFileModifyRequest | src/main/java/unimelb/bitbox/protocol/FileModifyRequest.java:23-54 | A file-modify request reads back if and only if its descriptor is typed, with the descriptor cut down to its three fields. |
| CodecLaws.NormalisesFileModifyResponse | src/main/java/unimelb/bitbox/protocol/FileModifyResponse.java:35-64 | A file-modify response reads back if and only if its descriptor is typed, and then as a success. |
| CodecLaws.NormalisesFileBytesRequest | src/main/java/unimelb/bitbox/protocol/FileBytesRequest.java:28-56 | A byte request reads back if and only if its descriptor is typed, and then with the same path, position and length. |
| CodecLaws.NormalisesFileBytesResponse | src/main/java/unimelb/bitbox/protocol/FileBytesResponse.java:47-85 | A written byte response reads back with the same position, length, content, status and message. |
| CodecLaws.NormalisesClientConnectionRequest | src/main/java/unimelb/bitbox/protocol/ClientConnectionRequest.java:21-34 | A written authorisation request reads back with the same identity. |
| CodecLaws.NormalisesClientConnectionResponse | src/main/java/unimelb/bitbox/protocol/ClientConnectionResponse.java:20-51 | A written authorisation response reads back with the same key, or the same absence of one. |
| CodecLaws.NormalisesListPeersRequest | src/main/java/unimelb/bitbox/protocol/ListPeersRequest.java:19-27 | A written list-peers request reads back as one. |
| CodecLaws.NormalisesListPeersResponse | src/main/java/unimelb/bitbox/protocol/ListPeersResponse.java:24-45 | A written list-peers response reads back with the same peers in order. |
| CodecLaws.NormalisesConnectPeerRequest | src/main/java/unimelb/bitbox/protocol/ProtocolHelper.java:83-84 | A connect-peer request reads back as its document, less the command key. |
| CodecLaws.NormalisesConnectPeerResponse | src/main/java/unimelb/bitbox/protocol/ConnectPeerResponse.java:33-53 | A written connect-peer response reads back with the same host, port, status and message. |
| CodecLaws.NormalisesDisconnectPeerRequest | src/main/java/unimelb/bitbox/protocol/DisconnectPeerRequest.java:23-38 | A written disconnect request reads back with the same host and port. |
| CodecLaws.NormalisesDisconnectPeerResponse | src/main/java/unimelb/bitbox/protocol/DisconnectPeerResponse.java:25-49 | A written disconnect response reads back with the same host, port and status. |
| CodecLaws.DecodesHandshakeRequest | src/main/java/unimelb/bitbox/protocol/ProtocolHelper.java:38-39 | `HANDSHAKE_REQUEST` is read by the handshake-request reader. |
| CodecLaws.DecodesHandshakeResponse | src/main/java/unimelb/bitbox/protocol/ProtocolHelper.java:41-42 | `HANDSHAKE_RESPONSE` is read by the handshake-response reader. |
| CodecLaws.DecodesConnectionRefused | src/main/java/unimelb/bitbox/protocol/ProtocolHelper.java:29-30 | `CONNECTION_REFUSED` is read by the refusal reader. |
| CodecLaws.DecodesInvalidProtocol | src/main/java/unimelb/bitbox/protocol/ProtocolHelper.java:44-45 | `INVALID_PROTOCOL` is read by the invalid-protocol reader. |
| CodecLaws.DecodesDirectoryCreateRequest | src/main/java/unimelb/bitbox/protocol/ProtocolHelper.java:47-48 | `DIRECTORY_CREATE_REQUEST` goes to its reader. |
| CodecLaws.DecodesDirectoryCreateResponse | src/main/java/unimelb/bitbox/protocol/ProtocolHelper.java:50-51 | `DIRECTORY_CREATE_RESPONSE` goes to its reader. |
| CodecLaws.DecodesDirectoryDeleteRequest | src/main/java/unimelb/bitbox/protocol/ProtocolHelper.java:53-54 | `DIRECTORY_DELETE_REQUEST` goes to its reader. |
| CodecLaws.DecodesDirectoryDeleteResponse | src/main/java/unimelb/bitbox/protocol/ProtocolHelper.java:56-57 | `DIRECTORY_DELETE_RESPONSE` goes to its reader. |
| CodecLaws.DecodesFileCreateRequest | src/main/java/unimelb/bitbox/protocol/ProtocolHelper.java:65-66 | `FILE_CREATE_REQUEST` goes to its reader. |
| CodecLaws.DecodesFileCreateResponse | src/main/java/unimelb/bitbox/protocol/ProtocolHelper.java:68-69 | `FILE_CREATE_RESPONSE` goes to its reader. |
| CodecLaws.DecodesFileDeleteRequest | src/main/java/unimelb/bitbox/protocol/ProtocolHelper.java:71-72 | `FILE_DELETE_REQUEST` goes to its reader. |
| CodecLaws.DecodesFileDeleteResponse | src/main/java/unimelb/bitbox/protocol/ProtocolHelper.java:74-75 | `FILE_DELETE_RESPONSE` goes to its reader. |
| CodecLaws.DecodesFileModifyRequest | src/main/java/unimelb/bitbox/protocol/ProtocolHelper.java:32-33 | `FILE_MODIFY_REQUEST` goes to its reader. |
| CodecLaws.DecodesFileModifyResponse | src/main/java/unimelb/bitbox/protocol/ProtocolHelper.java:35-36 | `FILE_MODIFY_RESPONSE` goes to its reader. |
| CodecLaws.DecodesFileBytesRequest | src/main/java/unimelb/bitbox/protocol/ProtocolHelper.java:59-60 | `FILE_BYTES_REQUEST` goes to its reader. |
| CodecLaws.DecodesFileBytesResponse | src/main/java/unimelb/bitbox/protocol/ProtocolHelper.java:62-63 | `FILE_BYTES_RESPONSE` goes to its reader. |
| CodecLaws.DecodesClientConnectionRequest | src/main/java/unimelb/bitbox/protocol/ProtocolHelper.java:77-78 | `AUTH_REQUEST` goes to the authorisation-request reader. |
| CodecLaws.DecodesClientConnectionResponse | src/main/java/unimelb/bitbox/protocol/ProtocolHelper.java:80-81 | `AUTH_RESPONSE` goes to the authorisation-response reader. |
| CodecLaws.DecodesListPeersRequest | src/main/java/unimelb/bitbox/protocol/ProtocolHelper.java:95-96 | `LIST_PEERS_REQUEST` always reads as a list-peers request. |
| CodecLaws.DecodesListPeersResponse | src/main/java/unimelb/bitbox/protocol/ProtocolHelper.java:98-99 | `LIST_PEERS_RESPONSE` goes to its reader. |
| CodecLaws.DecodesConnectPeerRequest | src/main/java/unimelb/bitbox/protocol/ProtocolHelper.java:83-84 | `CONNECT_PEER_REQUEST` always reads, as its document less the command. |
| CodecLaws.DecodesConnectPeerResponse | src/main/java/unimelb/bitbox/protocol/ProtocolHelper.java:86-87 | `CONNECT_PEER_RESPONSE` goes to its reader. |
| CodecLaws.DecodesDisconnectPeerRequest | src/main/java/unimelb/bitbox/protocol/ProtocolHelper.java:89-90 | `DISCONNECT_PEER_REQUEST` goes to its reader. |
| CodecLaws.DecodesDisconnectPeerResponse | src/main/java/unimelb/bitbox/protocol/ProtocolHelper.java:92-93 | `DISCONNECT_PEER_RESPONSE` goes to its reader. |
| CodecLaws.DecodeEncodeNormalises | src/main/java/unimelb/bitbox/protocol/ProtocolHelper.java:15-105 | For every message: written then read, it comes back if and only if it is readable, and then in its normal form. |
| CodecLaws.NormaliseCanonical | src/main/java/unimelb/bitbox/protocol/FileModifyRequest.java:33-54 | Reading leaves a message unchanged if and only if it is canonical. |
| CodecLaws.DecodeEncode | src/main/java/unimelb/bitbox/protocol/ProtocolHelper.java:15-105 | Writing then reading gives a message back exactly for readable messages, and the same message exactly for canonical ones. |
| CodecLaws.DecodeCanonical | src/main/java/unimelb/bitbox/protocol/ProtocolHelper.java:15-105 | Everything `convertProtocol` returns is canonical. |
| CodecLaws.ReencodeStable | src/main/java/unimelb/bitbox/UDPCommunicationModule.java:415 | A received message, written again for the request handler, reads back as the same message. |
| CodecLaws.FileModifyRefusalLost | src/main/java/unimelb/bitbox/protocol/FileModifyResponse.java:45-64 | A refused file-modify response, once sent, is read by the peer as a success. |
| CodecLaws.FileModifyResponseCorrectedRoundTrip | src/main/java/unimelb/bitbox/protocol/FileModifyResponse.java:35-64 | With the status honoured, every typed file-modify response reads back exactly as written. |
| Events.HandleEvent | src/main/java/unimelb/bitbox/EventHandler.java:11-26 | Each of the five event kinds gives the request of its exchange, with the event's path and descriptor; any other kind gives null. |
| Events.EventRequestRoundTrip | src/main/java/unimelb/bitbox/EventHandler.java:11-26 | A peer reads an event's announcement as exactly the request the event produced. |
| Transfer.BlockSize | src/main/java/unimelb/bitbox/RequestHandler.java:264 | The block size is the configured size capped at 8192. |
| Transfer.ChunkLength | src/main/java/unimelb/bitbox/RequestHandler.java:267-269 | The length asked for is at most the block and at most what remains, and it is one of the two: a whole block, or all that is left. |
| Transfer.FirstChunk | src/main/java/unimelb/bitbox/RequestHandler.java:262-269 | The first byte request starts at zero and asks for a non-empty part of a non-empty file. |
| Transfer.NextChunk | src/main/java/unimelb/bitbox/RequestHandler.java:552-570 | After a write there is a next request if and only if bytes remain; it starts where the write ended and takes a block or the rest. |
| Transfer.ScheduleContiguous | src/main/java/unimelb/bitbox/RequestHandler.java:552-570 | Each byte request in a transfer starts where the one before it ended. |
| Transfer.ScheduleBlocks | src/main/java/unimelb/bitbox/RequestHandler.java:552-570 | Each byte request in a transfer is a whole block or the rest of the file, and is non-empty for a non-empty file. |
| Transfer.ScheduleEnds | src/main/java/unimelb/bitbox/RequestHandler.java:552-570 | The last request ends at the file's size; an empty file gets one request of length zero. |
| Transfer.ScheduleCount | src/main/java/unimelb/bitbox/RequestHandler.java:552-570 | A non-empty file takes exactly the ceiling of size over block size requests. |
| Transfer.ScheduleTiles | src/main/java/unimelb/bitbox/RequestHandler.java:262-269 | The requests for one file tile it from zero to its size, in the fewest blocks. |
| Transfer.ScheduleSteps | src/main/java/unimelb/bitbox/RequestHandler.java:552-570 | Replaying the next-request step from the first request walks the schedule and stops after its last entry. |
| Dispatcher.CreateDirectory | src/main/java/unimelb/bitbox/RequestHandler.java:150-172 | A directory create succeeds if and only if the name is safe, new and made; it is refused as unsafe or existing otherwise, and only a safe new name touches the disk. |
| Dispatcher.DeleteDirectoryRequest | src/main/java/unimelb/bitbox/RequestHandler.java:188-210 | A directory delete succeeds if and only if the name is safe, present and removed; it is refused as unsafe or missing otherwise. |
| Dispatcher.FirstBytes | src/main/java/unimelb/bitbox/RequestHandler.java:271-288 | The first byte request is sent unless the shortcut finds a local copy; a shortcut that throws still sends it. |
| Dispatcher.CreateFile | src/main/java/unimelb/bitbox/RequestHandler.java:232-324 | A file create succeeds if and only if its name checks pass and the loader opens. A second reply, the first byte request, follows exactly when no shortcut applies. The loader is a modify loader, for the new checksum and timestamp, when the name already exists; otherwise it is a create loader. |
| Dispatcher.DeleteFileRequest | src/main/java/unimelb/bitbox/RequestHandler.java:347-372 | A file delete succeeds if and only if the name is safe, the file exists and the delete works; only then is the file touched. |
| Dispatcher.ModifyFile | src/main/java/unimelb/bitbox/RequestHandler.java:392-456 | A file modify succeeds if and only if the file exists with other content and the loader opens. It is refused as unsafe, same content or missing otherwise. |
| Dispatcher.ReadBytes | src/main/java/unimelb/bitbox/RequestHandler.java:477-517 | A byte request is answered once, at the same position and length. The content is sent exactly when the name is safe and the read succeeds; it is empty otherwise. |
| Dispatcher.WriteBytes | src/main/java/unimelb/bitbox/RequestHandler.java:532-609 | After a successful write the next block is requested if bytes remain. The loader is cancelled exactly on a refusal, a failed write or an incomplete file. |
| Dispatcher.HandleRequest | src/main/java/unimelb/bitbox/RequestHandler.java:33-127 | Null gets an invalid-protocol reply; connection messages and responses other than byte responses get no reply. |
| Dispatcher.HandleDocument | src/main/java/unimelb/bitbox/RequestHandler.java:33-42 | A document without a command is answered with an invalid-protocol message. |
| Dispatcher.ReplyAnswersRequest | src/main/java/unimelb/bitbox/RequestHandler.java:45-114 | Every file-system request gets a first reply that its own `pairTo` accepts, and that is its intended reply. |
| Dispatcher.UnsafeRequestTouchesNothing | src/main/java/unimelb/bitbox/RequestHandler.java:45-114 | A request about an unsafe path is refused as such and changes nothing on disk. |
| Dispatcher.FirstRequestStartsSchedule | src/main/java/unimelb/bitbox/RequestHandler.java:262-288 | The byte request sent with a ready loader is the first entry of the file's transfer schedule. |
| Dispatcher.WritesFollowSchedule | src/main/java/unimelb/bitbox/RequestHandler.java:552-570 | With writes succeeding, the reply to each chunk asks for the next chunk of the schedule. After the last chunk, the file is checked for completeness. |
| PendingRequests.Record | src/main/java/unimelb/bitbox/UDPCommunicationModule.java:169-171 | Exactly a first send of a request appends it to the pending list, with no resends; anything else leaves the list alone. |
| PendingRequests.FirstPaired | src/main/java/unimelb/bitbox/UDPCommunicationModule.java:194-205 | The answered entry found is the first whose `pairTo` accepts the reply; none is found only if none accepts it. |
| PendingRequests.Retire | src/main/java/unimelb/bitbox/UDPCommunicationModule.java:194-205 | A reply removes exactly the first pending request it answers; an unanswered reply removes nothing. |
| PendingRequests.RecordThenRetire | src/main/java/unimelb/bitbox/UDPCommunicationModule.java:159-205 | Sending a request and then receiving its reply leaves the pending list as it was. |
| PendingRequests.RetryScan | src/main/java/unimelb/bitbox/UDPCommunicationModule.java:315-339 | A scan ends the session if and only if some overdue request has no resends left. Otherwise each overdue request is resent in order, its count raised and its time refreshed. |
| PendingRequests.RetryScanExpired | src/main/java/unimelb/bitbox/UDPCommunicationModule.java:315-339 | A scan that ends the session stopped at the first request with no resends left. The overdue requests before it were resent and refreshed. It and every later entry are kept as they were. |
| PendingRequests.RetryScanBounded | src/main/java/unimelb/bitbox/UDPCommunicationModule.java:315-339 | No scan raises a resend count past the maximum. |
| PendingRequests.UnansweredResentAtMostMax | src/main/java/unimelb/bitbox/UDPCommunicationModule.java:300-339 | An unanswered request is resent at most four times in all, whenever the scans run. |
| PendingRequests.UnansweredEndsSession | src/main/java/unimelb/bitbox/UDPCommunicationModule.java:300-339 | Scanned once per interval, an unanswered request is resent exactly its remaining times and the next scan ends the session. |
| UdpSessions.IndexOf | src/main/java/unimelb/bitbox/UDPCommunicationModule.java:556 | A peer's session is found exactly when it has one. |
| UdpSessions.Remove | src/main/java/unimelb/bitbox/UDPCommunicationModule.java:220-231 | Ending a session removes that peer and no other, and keeps the map a map. |
| UdpSessions.IncomingCount | src/main/java/unimelb/bitbox/UDPCommunicationModule.java:607-617 | The incoming count never exceeds the number of sessions. |
| UdpSessions.ConnectedList | src/main/java/unimelb/bitbox/UDPCommunicationModule.java:623-633 | A peer is listed if and only if it has a connected session. |
| UdpSessions.IncomingAmongConnected | src/main/java/unimelb/bitbox/UDPCommunicationModule.java:607-633 | No more sessions count as incoming than there are connected peers. |
| UdpSessions.IncomingCountRemove | src/main/java/unimelb/bitbox/UDPCommunicationModule.java:220-231 | Ending a session never raises the incoming count. |
| UdpSessions.SendAll | src/main/java/unimelb/bitbox/UDPCommunicationModule.java:159-178 | Sending a series of messages emits one datagram per message to the session's peer, in order. The pending list only grows at its end. When every message is a request, each one is appended in order, waiting since now with no resends. When none is, the list is unchanged. |
| UdpSessions.Start | src/main/java/unimelb/bitbox/UDPCommunicationModule.java:236-244 | Starting a session connects it and clears its pending list. |
| UdpSessions.InitHandshake | src/main/java/unimelb/bitbox/UDPCommunicationModule.java:554-562 | A new peer gets an outgoing unconnected session and a pending handshake request naming this node; a known peer changes nothing. |
| UdpSessions.InitAll | src/main/java/unimelb/bitbox/UDPCommunicationModule.java:554-562 | After starting handshakes with a list, every listed peer has a session and the existing ones are untouched. |
| UdpSessions.InitAllKeepsInvariants | src/main/java/unimelb/bitbox/UDPCommunicationModule.java:554-562 | Starting handshakes keeps the map a map and leaves the incoming count unchanged. |
| UdpSessions.Arrive | src/main/java/unimelb/bitbox/UDPCommunicationModule.java:73-95 | A datagram from an unknown peer opens an incoming unconnected session; a known peer's session is kept. |
| UdpSessions.Dispatch | src/main/java/unimelb/bitbox/UDPCommunicationModule.java:414-422 | A connected session sends back the handler's replies in order and stays connected. A request received keeps every earlier pending entry. A response received retires the first pending request that it answers, once the replies are recorded. |
| UdpSessions.Reject | src/main/java/unimelb/bitbox/UDPCommunicationModule.java:431-434 | An invalid message is answered with the format error and ends the session. |
| UdpSessions.Process | src/main/java/unimelb/bitbox/UDPCommunicationModule.java:381-426 | An undecodable message is rejected: the sender gets the format error and loses its session. Every datagram sent goes back to the sender, except the handshakes that a refusal starts. The handler is needed only on a connected session. |
| UdpSessions.Receive | src/main/java/unimelb/bitbox/UDPCommunicationModule.java:381-388 | An undecodable datagram is answered with the format error and leaves the sender without a session. |
| UdpSessions.HandshakeAdmission | src/main/java/unimelb/bitbox/UDPCommunicationModule.java:439-459 | Before connecting, a handshake request is accepted if and only if the incoming count is under the limit. A refusal lists the connected peers and ends the session. |
| UdpSessions.ConnectedHandshakes | src/main/java/unimelb/bitbox/UDPCommunicationModule.java:439-473 | Once connected, a handshake request is answered and a handshake response ignored; the map is unchanged. |
| UdpSessions.RefusalRedirects | src/main/java/unimelb/bitbox/UDPCommunicationModule.java:479-487 | A refusal ends the session and starts a handshake with every listed peer. |
| UdpSessions.UnconnectedRejects | src/main/java/unimelb/bitbox/UDPCommunicationModule.java:390-403 | Before the handshake, an invalid-protocol message ends the session silently and any other non-handshake message is rejected. |
| UdpSessions.NewPeerRejected | src/main/java/unimelb/bitbox/UDPCommunicationModule.java:390-403 | The first datagram from a new peer, unless it is a handshake message, is answered with the format error and leaves no session. The handler is not consulted. |
| UdpSessions.ConnectedDispatches | src/main/java/unimelb/bitbox/UDPCommunicationModule.java:405-423 | A connected session hands every other message to the handler and sends its replies back in order, staying connected. A request keeps the earlier pending entries. A response retires the first pending request that it answers. |
| UdpSessions.UnsolicitedResponseExceedsLimit | src/main/java/unimelb/bitbox/UDPCommunicationModule.java:464-473 | As written, a handshake response on a session the peer opened pushes the incoming count past the limit. |
| UdpSessions.ProcessCorrected | src/main/java/unimelb/bitbox/UDPCommunicationModule.java:464-473 | The correction changes nothing but the handling of handshake responses. |
| UdpSessions.CorrectedKeepsLimit | src/main/java/unimelb/bitbox/UDPCommunicationModule.java:381-487 | With the correction, no received message takes the incoming sessions past the limit or breaks the map. |
| UdpSessions.RetryStep | src/main/java/unimelb/bitbox/UDPCommunicationModule.java:315-339 | A retry scan resends to the peer exactly the scan's resent requests, in order, and ends the session exactly when the scan expires. |
| UdpSessions.Sync | src/main/java/unimelb/bitbox/UDPCommunicationModule.java:527-533 | Sync sends each event's request to the peer in order. The old pending list is kept, and after it comes one fresh entry per event request, in event order. |
| UdpSessions.SyncAllRequests | src/main/java/unimelb/bitbox/UDPCommunicationModule.java:527-533 | Sending only requests appends exactly those requests to the pending list, in order, each waiting since now with no resends. |
| UdpSessions.Broadcast | src/main/java/unimelb/bitbox/UDPCommunicationModule.java:540-548 | Broadcast sends the message to exactly the connected peers. Each connected session records the message as its send does, so a request starts waiting there. An unconnected session is untouched. Nothing else about a session changes. |
| UdpSessions.DisconnectPeer | src/main/java/unimelb/bitbox/UDPCommunicationModule.java:591-601 | Disconnecting succeeds if and only if the peer is connected, then ends its session; otherwise nothing changes. |
| TcpConnections.IncomingNum | src/main/java/unimelb/bitbox/TCPCommunicationModule.java:184-194 | The incoming count never exceeds the number of connections. |
| TcpConnections.PeersOf | src/main/java/unimelb/bitbox/TCPCommunicationModule.java:121-129 | The connected peers are every connection's peer, in list order. |
| TcpConnections.Close | src/main/java/unimelb/bitbox/TCPCommunicationModule.java:412-423 | Closing removes exactly the given connection and keeps the others. |
| TcpConnections.CloseIncoming | src/main/java/unimelb/bitbox/TCPCommunicationModule.java:412-423 | Closing never raises the incoming count. |
| TcpConnections.DisconnectPeer | src/main/java/unimelb/bitbox/TCPCommunicationModule.java:136-148 | Disconnecting succeeds if and only if some connection goes to the peer, and then closes the first such one. |
| TcpConnections.ListContainsNever | src/main/java/unimelb/bitbox/TCPCommunicationModule.java:622 | The membership test as written is false for every list and peer. |
| TcpConnections.HandshakeStep | src/main/java/unimelb/bitbox/TCPCommunicationModule.java:545-585 | A connection is added only on a request to an accepted socket under the limit, or a response on a dialled one. Redials happen only on a refusal. |
| TcpConnections.SyncLines | src/main/java/unimelb/bitbox/TCPCommunicationModule.java:402-407 | There is one sync line per event, in order: the request the event handler builds for it. |
| TcpConnections.Open | src/main/java/unimelb/bitbox/TCPCommunicationModule.java:308-327 | The socket writes the handshake step's own reply first. Once the connection is established, the sync lines for the generated events follow, and nothing else changes. |
| TcpConnections.OpenSyncs | src/main/java/unimelb/bitbox/TCPCommunicationModule.java:308-327 | Sync requests go out exactly on an established connection. A dialled socket that reads a handshake response writes only them. An admitted request is answered first. A socket that does not become a connection writes no request. |
| TcpConnections.HandshakeTable | src/main/java/unimelb/bitbox/TCPCommunicationModule.java:545-656 | A request is accepted only on an accepted socket, and a response or refusal only on a dialled one. Anything else gets the invalid-protocol reply. |
| TcpConnections.AdmissionAsWritten | src/main/java/unimelb/bitbox/TCPCommunicationModule.java:617-640 | An accepted handshake request is admitted if and only if the incoming limit has room; a refusal lists every connected peer. |
| TcpConnections.HandshakeKeepsLimit | src/main/java/unimelb/bitbox/TCPCommunicationModule.java:617-640 | No handshake takes the incoming connections past the limit. |
| TcpConnections.DuplicateAdmission | src/main/java/unimelb/bitbox/TCPCommunicationModule.java:622 | As written, a peer that is already connected is admitted again and gets a second connection. |
| TcpConnections.HandshakeStepCorrected | src/main/java/unimelb/bitbox/TCPCommunicationModule.java:617-640 | With peers compared as peers, an admitted peer was not already connected; other steps are unchanged. |
| TcpConnections.CorrectedAdmitsOnce | src/main/java/unimelb/bitbox/TCPCommunicationModule.java:617-640 | With the correction, no peer ever has two connections. |
| TcpConnections.CheckReceive | src/main/java/unimelb/bitbox/TCPCommunicationModule.java:383-397 | A line passes to the handler if and only if it decodes to a non-handshake, non-invalid message; an invalid-protocol message stops the connection silently. |
| TcpConnections.ReceiveLine | src/main/java/unimelb/bitbox/TCPCommunicationModule.java:349-376 | A passing line's handler replies are written in order; any other line closes the connection after the filter's reply. |
| TcpConnections.DispatcherNeverSeesHandshakes | src/main/java/unimelb/bitbox/TCPCommunicationModule.java:383-397 | On an established connection the handler never sees a handshake message or null. |
| TcpConnections.Dial | src/main/java/unimelb/bitbox/TCPCommunicationModule.java:227-267 | Dialling skips a connected peer, stops at the first successful try and gives up after five failures. |
| SshWire.ToByteArray | src/main/java/unimelb/bitbox/EncryptHelper.java:382-399 | The two's-complement form is never empty and its first byte carries the sign. |
| SshWire.TwosToByteArray | src/main/java/unimelb/bitbox/EncryptHelper.java:81-87 | Reading back `toByteArray` gives the same number. |
| SshWire.LengthBytesRead | src/main/java/unimelb/bitbox/EncryptHelper.java:401-405 | A length written as four bytes reads back as the same length. |
| SshWire.Write | src/main/java/unimelb/bitbox/EncryptHelper.java:401-405 | A field is four length bytes followed by its bytes. |
| SshWire.ReadBytes | src/main/java/unimelb/bitbox/EncryptHelper.java:97-106 | A field is read when its length and body fit the buffer. It is the bytes after the length, and a bad length makes the read fail. |
| SshWire.ReadWrite | src/main/java/unimelb/bitbox/EncryptHelper.java:97-106 | A written field reads back whole wherever it sits. |
| SshWire.ReadMpint | src/main/java/unimelb/bitbox/EncryptHelper.java:81-87 | An mpint is read exactly when its field is, and an empty field is zero. |
| SshWire.AsciiRoundTrip | src/main/java/unimelb/bitbox/EncryptHelper.java:89-95 | ASCII text survives US-ASCII encoding and decoding. |
| SshWire.ReadString | src/main/java/unimelb/bitbox/EncryptHelper.java:89-95 | A string is read exactly when its field is, one character per byte. |
| SshWire.EncodeKey | src/main/java/unimelb/bitbox/EncryptHelper.java:382-399 | The key blob is three length-prefixed fields: name, exponent, modulus. |
| SshWire.ParseKey | src/main/java/unimelb/bitbox/EncryptHelper.java:45-79 | A key is parsed exactly when its three fields read in order, and its name is the first field. |
| SshWire.ParseEncodedKey | src/main/java/unimelb/bitbox/EncryptHelper.java:45-79 | A key written by this node parses back to the same name, exponent and modulus. |
| JavaTypes.CharUnits | src/main/java/unimelb/bitbox/EncryptHelper.java:268-269 | A character is one code unit in the basic plane. Otherwise it is a high and a low surrogate that together encode it. |
| JavaTypes.Utf16Units | src/main/java/unimelb/bitbox/ConnectedPeer.java:69-70 | A string holds at least one 16-bit unit per character. |
| AesPadding.JavaLengthCountsUnits | src/main/java/unimelb/bitbox/EncryptHelper.java:268-269 | `length()` counts exactly the UTF-16 units the string holds. |
| AesPadding.JavaLength | src/main/java/unimelb/bitbox/EncryptHelper.java:268-269 | A string has at least as many UTF-16 code units as characters. |
| AesPadding.Utf8Length | src/main/java/unimelb/bitbox/EncryptHelper.java:282 | A string has at least as many UTF-8 bytes as characters. |
| AesPadding.AsciiLengths | src/main/java/unimelb/bitbox/EncryptHelper.java:264-284 | ASCII text measures the same in code units and in bytes. |
| AesPadding.PaddingLength | src/main/java/unimelb/bitbox/EncryptHelper.java:264-273 | Padding is under one block, reaches the next block boundary, and is empty exactly on a boundary. |
| AesPadding.RandomIndex | src/main/java/unimelb/bitbox/EncryptHelper.java:438-447 | The random index stays inside the list and is zero exactly for draws of zero and one. |
| AesPadding.GeneratePadding | src/main/java/unimelb/bitbox/EncryptHelper.java:427-436 | Padding has one alphanumeric character per draw. |
| AesPadding.Plaintext | src/main/java/unimelb/bitbox/EncryptHelper.java:264-273 | The plaintext is the message, a newline and alphanumeric padding, a whole number of blocks in code units. |
| AesPadding.AsciiMessageEncryptable | src/main/java/unimelb/bitbox/EncryptHelper.java:264-284 | For an ASCII message, the cipher accepts the padded plaintext. |
| AesPadding.NonAsciiNotEncryptable | src/main/java/unimelb/bitbox/EncryptHelper.java:264-284 | A message with one accented letter is padded by code units and refused by the cipher. |
| AesPadding.MisalignedWhenMeasuresDiffer | src/main/java/unimelb/bitbox/EncryptHelper.java:264-284 | Whenever code units and bytes differ by other than whole blocks, the cipher refuses the plaintext. |
| AesPadding.PlaintextCorrected | src/main/java/unimelb/bitbox/EncryptHelper.java:264-284 | Padding counted in UTF-8 bytes always gives a plaintext the cipher accepts, framed the same way. |
| AesPadding.LastClose | src/main/java/unimelb/bitbox/EncryptHelper.java:326-337 | The position found is the last `}` followed by a newline before the bound, if there is one. |
| AesPadding.Unpadded | src/main/java/unimelb/bitbox/EncryptHelper.java:326-337 | Decryption keeps everything before the last newline that follows `}`, or nothing if there is none. |
| AesPadding.Trim | src/main/java/unimelb/bitbox/EncryptHelper.java:326-337 | The scanning loop computes exactly that payload. |
| AesPadding.UnpadPlaintext | src/main/java/unimelb/bitbox/EncryptHelper.java:256-347 | Decrypting the padded form of a JSON message gives back the message. |
| AesPadding.UnpadPlaintextCorrected | src/main/java/unimelb/bitbox/EncryptHelper.java:302-347 | The same holds for the corrected padding. |

## Left out

- JSON text parsing and printing are out of scope. Messages are modelled
  as parsed documents. Base64, used for file content and the key blob,
  is likewise out of scope.
- RSA, AES and the `KeyFactory` are not modelled. The model covers what
  surrounds them: the wire format of the public key, and the framing and
  trimming of the AES plaintext. Whether the cipher accepts its input is
  stated by `AesPadding.Encryptable`.
- Threads, sockets, sleeps, `synchronized` blocks and the per-session
  worker tasks are out of scope. Each handler is one step on explicit
  state, and the clock is a `now` parameter.
- The file-system manager is not part of this model. Its answers are the
  `Outcomes` record, and its side effects are returned as `Effect`s.
- `ConnectPeerRequest.java` is not part of this model. Its reader is
  taken never to fail, so `Codec.Decode` keeps the document whole, less
  the command. The message is also taken to be a request
  (`Messages.IsRequest`). Both are assumptions about a class whose code
  is not modelled.
- `Codec.Convertible`: a peer entry without a `host` key is excluded.
  The connection-refused and list-peers readers turn such an entry into
  a peer with a null host, without throwing. A null host cannot be
  represented, because `Peer.host` is a string.
- The client (`Client.java`) and the client-side dispatch
  (`ClientManager.java`) are left out. This includes the UDP
  `writeToClint` notices and the client variant of `initHandshake` with
  its writer and secret key.
- Configuration values are parameters: the node's address, the incoming
  limit and the block size.
- The random source is a sequence of draws.
- Java `assert` is disabled at run time, so the key-type name is not
  checked when parsing a key. The model reads it without checking.
- A Java string is modelled as its characters, with the UTF-16 view
  given by `JavaTypes.Utf16Units`. Only `length` and `hashCode` use that
  view. No other UTF-16 operation is modelled.
- `UdpSessions.Broadcast`: each session gets its own pending entry.
  Java puts the same `Protocol` object on every connected session's
  pending list (UDPCommunicationModule.java:540-547). Every session's
  retry scan then raises that one object's count and refreshes its time.
  So for a broadcast request the count and time are shared across peers.
  One peer's resend can hide the entry from another peer's scan, and the
  sessions end together once the shared count is spent. The model does
  not share that record, so `PendingRequests.UnansweredEndsSession` and
  `UnansweredResentAtMostMax` describe a session's own requests, not
  broadcast ones.
- `UdpSessions.SendAll`: every send is taken to succeed. Java's `send`
  catches `UnknownHostException` and `IOException` and then records
  nothing. `InitHandshake`, `Sync`, `Broadcast` and `Dispatch` inherit
  this. For example, a handshake to a host that does not resolve leaves,
  in Java, an unconnected session with nothing pending. That session is
  never retried or removed. In the model, the handshake is pending and
  the retry scan ends the session.
- `ConnectedPeers.ParseInt`: only the ASCII digits `0`-`9` are digits.
  `Integer.parseInt` accepts any Unicode decimal digit, for example
  Arabic-Indic digits. So `ConvertConnectedPeer` gives null for such
  text, where Java gives a peer.
- `HashMap` iteration order is modelled as the order of the session list.
  The Java order is unspecified, so broadcast order and the order of
  refusal lists are not promised by the source either.
- `RetryScan` reads the clock once per scan. The Java loop reads it once
  per entry; the difference only matters for entries that become overdue
  during the scan.
- `TcpConnections.Dial` leaves out the sleep between tries and the socket
  itself; the outcome of each try is an input.
- `UdpSessions.Process` and `Dispatch` hand the request handler an
  already decoded message. `CodecLaws.ReencodeStable` states that writing
  it out and reading it back gives the same message.
- `Codec.Decode`: its contract names only the class each command reads
  as. What each reader gives back is stated per class by the
  `CodecLaws.Normalises…` and `CodecLaws.Decodes…` lemmas rather than by
  the converters' own contracts.
- `Codec.ConvertFileModifyResponseCorrected`: its contract names only the
  class. That it keeps the status is stated by
  `CodecLaws.FileModifyResponseCorrectedRoundTrip`.
- `ConnectedPeers.FromDoc`: a port outside the `int` range is wrapped by
  `LongToInt`. Its contract states the value only for in-range ports.
- `Dispatcher.HandleRequest`: its own contract covers only the null,
  connection and response branches. The request branches are stated by
  `CreateDirectory` through `WriteBytes` and by the lemmas that follow
  them.

## Findings

| source | as written | input that shows it | evidently intended | confidence | as-written member | corrected member |
|---|---|---|---|---|---|---|
| src/main/java/unimelb/bitbox/protocol/DirectoryDeleteResponse.java:66-73 | `pairTo` accepts a `DirectoryCreateRequest` | a directory-delete response for path `p` against the delete request for `p` | accept the `DirectoryDeleteRequest` it answers, so the UDP sender can retire it | high; not executed | Messages.DirectoryDeleteResponseMispairs | Messages.PairToCorrectedIsIntended |
| src/main/java/unimelb/bitbox/protocol/FileModifyResponse.java:77-84 | `pairTo` accepts a `FileDeleteRequest` | a file-modify response for path `p` against the modify request for `p` | accept the `FileModifyRequest` it answers | high; not executed | Messages.FileModifyResponseMispairs | Messages.PairToCorrectedIsIntended |
| src/main/java/unimelb/bitbox/protocol/FileModifyResponse.java:45-64 | `convert` reads the status and then always builds the success response | a refused file-modify response, read back | rebuild the response with its status and message, as the other responses do | high; not executed | CodecLaws.FileModifyRefusalLost | Codec.ConvertFileModifyResponseCorrected |
| src/main/java/unimelb/bitbox/UDPCommunicationModule.java:464-473 | a handshake response connects the session whoever opened it, without the incoming-limit check | limit 1, one incoming connected session, then an unsolicited handshake response from a new peer | accept a handshake response only on a session this node opened, as the TCP side does | medium; not executed | UdpSessions.UnsolicitedResponseExceedsLimit | UdpSessions.ProcessCorrected |
| src/main/java/unimelb/bitbox/TCPCommunicationModule.java:622 | `connections.contains(requestPeer)` compares a peer with `Connection` objects, so it is always false | a handshake request from a peer that already has an incoming connection | refuse or ignore a peer that is already connected | high; not executed | TcpConnections.DuplicateAdmission | TcpConnections.HandshakeStepCorrected |
| src/main/java/unimelb/bitbox/EncryptHelper.java:264-284 | the padding is counted in UTF-16 code units but the cipher is given UTF-8 bytes | the message `é}`: three code units padded to 16, which is 17 bytes | pad by the byte length of the UTF-8 encoding | high; not executed | AesPadding.NonAsciiNotEncryptable | AesPadding.PlaintextCorrected |

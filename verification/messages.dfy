/**
 * The peer protocol: one variant per message class, whether it is a
 * request, and which replies answer it (`pairTo`).
 *
 * A response's (status, message) pair is held as a `Reply`: `Done` is
 * status true with the class's fixed success text, `Refused(reason)` is
 * status false with the given text. These are exactly the pairs the two
 * constructors of each response class can build.
 */
module Messages {
  import opened JavaTypes
  import opened Documents
  import opened ConnectedPeers

  datatype Reply = Done | Refused(reason: string)

  datatype Message =
    | HandshakeRequest(hostPort: Peer)
    | HandshakeResponse(hostPort: Peer)
    | ConnectionRefused(peers: seq<Peer>)
    | InvalidProtocol(message: string)
    | DirectoryCreateRequest(pathName: string)
    | DirectoryCreateResponse(pathName: string, reply: Reply)
    | DirectoryDeleteRequest(pathName: string)
    | DirectoryDeleteResponse(pathName: string, reply: Reply)
    | FileCreateRequest(descriptor: Doc, pathName: string)
    | FileCreateResponse(descriptor: Doc, pathName: string, reply: Reply)
    | FileDeleteRequest(descriptor: Doc, pathName: string)
    | FileDeleteResponse(descriptor: Doc, pathName: string, reply: Reply)
    | FileModifyRequest(descriptor: Doc, pathName: string)
    | FileModifyResponse(descriptor: Doc, pathName: string, reply: Reply)
    | FileBytesRequest(descriptor: Doc, pathName: string, position: Int64, length: Int64)
    | FileBytesResponse(descriptor: Doc, pathName: string, position: Int64, length: Int64,
                        content: string, reply: Reply)
    | ClientConnectionRequest(identity: string)
    | ClientConnectionResponse(encryptedKey: Option<string>)
    | ListPeersRequest
    | ListPeersResponse(peers: seq<Peer>)
    | ConnectPeerRequest(raw: Doc)
    | ConnectPeerResponse(host: string, port: Int32, status: bool, message: string)
    | DisconnectPeerRequest(host: string, port: Int32)
    | DisconnectPeerResponse(host: string, port: Int32, status: bool)

  // Fixed texts written by the success constructors.
  const DirectoryCreated := "directory created"
  const DirectoryDeleted := "directory deleted"
  const FileLoaderReady := "file loader ready"
  const FileDeleted := "file deleted"
  const SuccessfulRead := "successful read"
  const ConnectionLimitReached := "connection limit reached"
  const ConnectedToPeer := "connected to peer"

  /** `isRequest()` of each class; the connect-peer request is taken to be a request. */
  predicate IsRequest(m: Message)
  {
    m.HandshakeRequest? || m.DirectoryCreateRequest? || m.DirectoryDeleteRequest?
    || m.FileCreateRequest? || m.FileDeleteRequest? || m.FileModifyRequest?
    || m.FileBytesRequest? || m.ClientConnectionRequest? || m.ListPeersRequest?
    || m.ConnectPeerRequest? || m.DisconnectPeerRequest?
  }

  /**
   * `self.pairTo(other)`, class by class as written, including the two
   * responses that compare against the wrong request class
   * (directory-delete response against create requests, file-modify
   * response against delete requests).
   */
  predicate PairTo(self: Message, other: Message)
  {
    match self
    case HandshakeRequest(_) => other.HandshakeResponse? || other.ConnectionRefused?
    case HandshakeResponse(_) => other.HandshakeRequest?
    case ConnectionRefused(_) => other.HandshakeRequest?
    case DirectoryCreateRequest(p) => other.DirectoryCreateResponse? && other.pathName == p
    case DirectoryCreateResponse(p, _) => other.DirectoryCreateRequest? && other.pathName == p
    case DirectoryDeleteRequest(p) => other.DirectoryDeleteResponse? && other.pathName == p
    case DirectoryDeleteResponse(p, _) => other.DirectoryCreateRequest? && other.pathName == p
    case FileCreateRequest(_, p) => other.FileCreateResponse? && other.pathName == p
    case FileCreateResponse(_, p, _) => other.FileCreateRequest? && other.pathName == p
    case FileDeleteRequest(_, p) => other.FileDeleteResponse? && other.pathName == p
    case FileDeleteResponse(_, p, _) => other.FileDeleteRequest? && other.pathName == p
    case FileModifyRequest(_, p) => other.FileModifyResponse? && other.pathName == p
    case FileModifyResponse(_, p, _) => other.FileDeleteRequest? && other.pathName == p
    case FileBytesRequest(_, p, pos, _) =>
      other.FileBytesResponse? && other.pathName == p && other.position == pos
    case FileBytesResponse(_, p, pos, _, _, _) =>
      other.FileBytesRequest? && other.pathName == p && other.position == pos
    case _ => false
  }

  /** The exchange a message takes part in, if it takes part in one. */
  datatype Exchange = Handshake | DirCreate | DirDelete | FileCreate | FileDelete | FileModify | FileBytes

  function ExchangeOf(m: Message): Option<Exchange>
  {
    match m
    case HandshakeRequest(_) => Some(Handshake)
    case HandshakeResponse(_) => Some(Handshake)
    case ConnectionRefused(_) => Some(Handshake)
    case DirectoryCreateRequest(_) => Some(DirCreate)
    case DirectoryCreateResponse(_, _) => Some(DirCreate)
    case DirectoryDeleteRequest(_) => Some(DirDelete)
    case DirectoryDeleteResponse(_, _) => Some(DirDelete)
    case FileCreateRequest(_, _) => Some(FileCreate)
    case FileCreateResponse(_, _, _) => Some(FileCreate)
    case FileDeleteRequest(_, _) => Some(FileDelete)
    case FileDeleteResponse(_, _, _) => Some(FileDelete)
    case FileModifyRequest(_, _) => Some(FileModify)
    case FileModifyResponse(_, _, _) => Some(FileModify)
    case FileBytesRequest(_, _, _, _) => Some(FileBytes)
    case FileBytesResponse(_, _, _, _, _, _) => Some(FileBytes)
    case _ => None
  }

  /**
   * The pairing the protocol describes: a request and a reply of the same
   * exchange; file and directory exchanges about the same path; byte
   * exchanges also at the same position.
   */
  predicate IntendedPair(a: Message, b: Message)
  {
    && ExchangeOf(a).Some?
    && ExchangeOf(a) == ExchangeOf(b)
    && IsRequest(a) != IsRequest(b)
    && (ExchangeOf(a) != Some(Handshake) ==> a.pathName == b.pathName)
    && (ExchangeOf(a) == Some(FileBytes) ==> a.position == b.position)
  }

  /** The intended pairing is symmetric. */
  lemma IntendedPairSymmetric(a: Message, b: Message)
    ensures IntendedPair(a, b) <==> IntendedPair(b, a)
  {
  }

  /** `pairTo` only ever relates a request to a non-request. */
  lemma PairToCrossesDirection(a: Message, b: Message)
    requires PairTo(a, b)
    ensures IsRequest(a) != IsRequest(b)
  {
  }

  /**
   * `pairTo` is the intended pairing for every class except the two
   * defective responses.
   */
  lemma PairToAgreesWithIntent(a: Message, b: Message)
    requires !a.DirectoryDeleteResponse? && !a.FileModifyResponse?
    ensures PairTo(a, b) <==> IntendedPair(a, b)
  {
  }

  /** The directory-delete response as written pairs with a create request for its path... */
  lemma DirectoryDeleteResponseMispairs(p: string, r: Reply)
    ensures PairTo(DirectoryDeleteResponse(p, r), DirectoryCreateRequest(p))
    ensures !IntendedPair(DirectoryDeleteResponse(p, r), DirectoryCreateRequest(p))
    ensures !PairTo(DirectoryDeleteResponse(p, r), DirectoryDeleteRequest(p))
    ensures IntendedPair(DirectoryDeleteResponse(p, r), DirectoryDeleteRequest(p))
  {
  }

  /** ...and the file-modify response as written pairs with a delete request for its path. */
  lemma FileModifyResponseMispairs(d: Doc, p: string, r: Reply)
    ensures PairTo(FileModifyResponse(d, p, r), FileDeleteRequest(d, p))
    ensures !IntendedPair(FileModifyResponse(d, p, r), FileDeleteRequest(d, p))
    ensures !PairTo(FileModifyResponse(d, p, r), FileModifyRequest(d, p))
    ensures IntendedPair(FileModifyResponse(d, p, r), FileModifyRequest(d, p))
  {
  }

  /**
   * `pairTo` with the two responses corrected, which coincides with the
   * intended pairing for every pair of messages.
   */
  predicate PairToCorrected(self: Message, other: Message)
  {
    match self
    case DirectoryDeleteResponse(p, _) => other.DirectoryDeleteRequest? && other.pathName == p
    case FileModifyResponse(_, p, _) => other.FileModifyRequest? && other.pathName == p
    case _ => PairTo(self, other)
  }

  lemma PairToCorrectedIsIntended(a: Message, b: Message)
    ensures PairToCorrected(a, b) <==> IntendedPair(a, b)
  {
    match a
    case DirectoryDeleteResponse(_, _) =>
    case FileModifyResponse(_, _, _) =>
    case _ => PairToAgreesWithIntent(a, b);
  }

  /**
   * Only a request's own `pairTo` decides whether a reply answers it, so
   * the two defects never affect which requests a reply acknowledges: on
   * requests the written and corrected predicates agree.
   */
  lemma RequestsPairAsIntended(req: Message, reply: Message)
    requires IsRequest(req)
    ensures PairTo(req, reply) <==> PairToCorrected(req, reply)
  {
  }
}

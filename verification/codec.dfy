/**
 * Writing a message as a document (`toString`) and reading one back
 * (`convert` of each class, dispatched on the command by
 * `ProtocolHelper.convertProtocol`). A converter that rejects its input
 * gives `None`, the model of a null result.
 */
module Codec {
  import opened JavaTypes
  import opened Documents
  import opened ConnectedPeers
  import opened Messages

  /** The `command` field each class writes and dispatches on. */
  function CommandName(m: Message): string
  {
    match m
    case HandshakeRequest(_) => "HANDSHAKE_REQUEST"
    case HandshakeResponse(_) => "HANDSHAKE_RESPONSE"
    case ConnectionRefused(_) => "CONNECTION_REFUSED"
    case InvalidProtocol(_) => "INVALID_PROTOCOL"
    case DirectoryCreateRequest(_) => "DIRECTORY_CREATE_REQUEST"
    case DirectoryCreateResponse(_, _) => "DIRECTORY_CREATE_RESPONSE"
    case DirectoryDeleteRequest(_) => "DIRECTORY_DELETE_REQUEST"
    case DirectoryDeleteResponse(_, _) => "DIRECTORY_DELETE_RESPONSE"
    case FileCreateRequest(_, _) => "FILE_CREATE_REQUEST"
    case FileCreateResponse(_, _, _) => "FILE_CREATE_RESPONSE"
    case FileDeleteRequest(_, _) => "FILE_DELETE_REQUEST"
    case FileDeleteResponse(_, _, _) => "FILE_DELETE_RESPONSE"
    case FileModifyRequest(_, _) => "FILE_MODIFY_REQUEST"
    case FileModifyResponse(_, _, _) => "FILE_MODIFY_RESPONSE"
    case FileBytesRequest(_, _, _, _) => "FILE_BYTES_REQUEST"
    case FileBytesResponse(_, _, _, _, _, _) => "FILE_BYTES_RESPONSE"
    case ClientConnectionRequest(_) => "AUTH_REQUEST"
    case ClientConnectionResponse(_) => "AUTH_RESPONSE"
    case ListPeersRequest => "LIST_PEERS_REQUEST"
    case ListPeersResponse(_) => "LIST_PEERS_RESPONSE"
    case ConnectPeerRequest(_) => "CONNECT_PEER_REQUEST"
    case ConnectPeerResponse(_, _, _, _) => "CONNECT_PEER_RESPONSE"
    case DisconnectPeerRequest(_, _) => "DISCONNECT_PEER_REQUEST"
    case DisconnectPeerResponse(_, _, _) => "DISCONNECT_PEER_RESPONSE"
  }

  /** The `message` text a response writes: the class's success text, or the reason. */
  function ReplyText(r: Reply, success: string): string
  {
    match r
    case Done => success
    case Refused(reason) => reason
  }

  /** A list of peers as the list of their `{host, port}` documents. */
  function PeerList(ps: seq<Peer>): (vs: seq<Value>)
    ensures |vs| == |ps|
    ensures forall i | 0 <= i < |ps| :: vs[i] == VDoc(ToDoc(ps[i]))
  {
    if |ps| == 0 then [] else [VDoc(ToDoc(ps[0]))] + PeerList(ps[1..])
  }

  /** `toString` of each class, as the document it serialises. */
  function Encode(m: Message): (d: Doc)
    ensures HasStr(d, "command") && d["command"].str == CommandName(m)
  {
    var c := VStr(CommandName(m));
    match m
    case HandshakeRequest(p) => map["command" := c, "hostPort" := VDoc(ToDoc(p))]
    case HandshakeResponse(p) => map["command" := c, "hostPort" := VDoc(ToDoc(p))]
    case ConnectionRefused(ps) =>
      map["command" := c, "message" := VStr(ConnectionLimitReached), "peers" := VList(PeerList(ps))]
    case InvalidProtocol(msg) => map["command" := c, "message" := VStr(msg)]
    case DirectoryCreateRequest(p) => map["command" := c, "pathName" := VStr(p)]
    case DirectoryCreateResponse(p, r) =>
      map["command" := c, "pathName" := VStr(p),
          "message" := VStr(ReplyText(r, DirectoryCreated)), "status" := VBool(r.Done?)]
    case DirectoryDeleteRequest(p) => map["command" := c, "pathName" := VStr(p)]
    case DirectoryDeleteResponse(p, r) =>
      map["command" := c, "pathName" := VStr(p),
          "message" := VStr(ReplyText(r, DirectoryDeleted)), "status" := VBool(r.Done?)]
    case FileCreateRequest(fd, p) => map["command" := c, "fileDescriptor" := VDoc(fd), "pathName" := VStr(p)]
    case FileCreateResponse(fd, p, r) =>
      map["command" := c, "fileDescriptor" := VDoc(fd), "pathName" := VStr(p),
          "message" := VStr(ReplyText(r, FileLoaderReady)), "status" := VBool(r.Done?)]
    case FileDeleteRequest(fd, p) => map["command" := c, "fileDescriptor" := VDoc(fd), "pathName" := VStr(p)]
    case FileDeleteResponse(fd, p, r) =>
      map["command" := c, "fileDescriptor" := VDoc(fd), "pathName" := VStr(p),
          "message" := VStr(ReplyText(r, FileDeleted)), "status" := VBool(r.Done?)]
    case FileModifyRequest(fd, p) => map["command" := c, "fileDescriptor" := VDoc(fd), "pathName" := VStr(p)]
    case FileModifyResponse(fd, p, r) =>
      map["command" := c, "fileDescriptor" := VDoc(fd), "pathName" := VStr(p),
          "message" := VStr(ReplyText(r, FileLoaderReady)), "status" := VBool(r.Done?)]
    case FileBytesRequest(fd, p, pos, len) =>
      map["command" := c, "fileDescriptor" := VDoc(fd), "pathName" := VStr(p),
          "position" := VLong(pos), "length" := VLong(len)]
    case FileBytesResponse(fd, p, pos, len, content, r) =>
      map["command" := c, "fileDescriptor" := VDoc(fd), "pathName" := VStr(p),
          "position" := VLong(pos), "length" := VLong(len), "content" := VStr(content),
          "message" := VStr(ReplyText(r, SuccessfulRead)), "status" := VBool(r.Done?)]
    case ClientConnectionRequest(id) => map["command" := c, "identity" := VStr(id)]
    case ClientConnectionResponse(key) =>
      if key.Some?
      then map["command" := c, "AES128" := VStr(key.value), "status" := VBool(true),
               "message" := VStr("public key found")]
      else map["command" := c, "status" := VBool(false), "message" := VStr("public key not found")]
    case ListPeersRequest => map["command" := c]
    case ListPeersResponse(ps) => map["command" := c, "peers" := VList(PeerList(ps))]
    case ConnectPeerRequest(raw) => raw["command" := c]
    case ConnectPeerResponse(h, port, ok, msg) =>
      map["command" := c, "host" := VStr(h), "port" := VLong(port),
          "status" := VBool(ok), "message" := VStr(msg)]
    case DisconnectPeerRequest(h, port) => map["command" := c, "host" := VStr(h), "port" := VLong(port)]
    case DisconnectPeerResponse(h, port, ok) =>
      map["command" := c, "host" := VStr(h), "port" := VLong(port), "status" := VBool(ok),
          "message" := VStr(if ok then "disconnected from peer" else "connection not active")]
  }

  // ---------------------------------------------------------------------
  // Reading

  predicate HasCommand(d: Doc, c: string) { HasStr(d, "command") && d["command"].str == c }

  /** Every entry of a peer list, read in order; the first bad entry rejects the list. */
  function PeersOf(items: seq<Value>): (r: Option<seq<Peer>>)
    ensures r.Some? ==> |r.value| == |items|
    ensures r.Some? <==> forall i | 0 <= i < |items| :: items[i].VDoc? && FromDoc(items[i].fields).Some?
    ensures r.Some? ==> forall i | 0 <= i < |items| :: Some(r.value[i]) == FromDoc(items[i].fields)
  {
    if |items| == 0 then Some([])
    else if !items[0].VDoc? then None
    else
      match FromDoc(items[0].fields)
      case None => None
      case Some(p) =>
        match PeersOf(items[1..])
        case None => None
        case Some(ps) => Some([p] + ps)
  }

  /** Entries that are documents name a host (a missing host would be a null string). */
  predicate EntriesHaveHost(items: seq<Value>)
  {
    forall i | 0 <= i < |items| :: items[i].VDoc? ==> "host" in items[i].fields
  }

  /**
   * The documents on which `convertProtocol` returns instead of throwing,
   * and in which no peer entry would get a null host. The converters with
   * no exception handler are the ones for list-peers responses and
   * authorisation requests and responses; the command itself must be a
   * string.
   */
  predicate Convertible(d: Doc)
  {
    && ("command" in d ==> d["command"].VStr?)
    && (HasCommand(d, "CONNECTION_REFUSED") && HasList(d, "peers") && "message" in d
        ==> EntriesHaveHost(d["peers"].items))
    && (HasCommand(d, "LIST_PEERS_RESPONSE") && "peers" in d
        ==> HasList(d, "peers") && PeersOf(d["peers"].items).Some?)
    && (HasCommand(d, "AUTH_REQUEST") && "identity" in d ==> HasStr(d, "identity"))
    && (HasCommand(d, "AUTH_RESPONSE") && "status" in d
        ==> HasBool(d, "status") && ("AES128" in d && d["status"].flag ==> HasStr(d, "AES128")))
  }

  function HandshakePeer(d: Doc): Option<Peer>
  {
    if HasDoc(d, "hostPort") then FromDoc(d["hostPort"].fields) else None
  }

  function ConvertHandshakeRequest(d: Doc): (r: Option<Message>)
    ensures r.Some? ==> r.value.HandshakeRequest?
  {
    match HandshakePeer(d)
    case Some(p) => Some(HandshakeRequest(p))
    case None => None
  }

  function ConvertHandshakeResponse(d: Doc): (r: Option<Message>)
    ensures r.Some? ==> r.value.HandshakeResponse?
  {
    match HandshakePeer(d)
    case Some(p) => Some(HandshakeResponse(p))
    case None => None
  }

  function ConvertConnectionRefused(d: Doc): (r: Option<Message>)
    ensures r.Some? ==> r.value.ConnectionRefused?
  {
    if "peers" in d && "message" in d && d["peers"].VList? then
      match PeersOf(d["peers"].items)
      case Some(ps) => Some(ConnectionRefused(ps))
      case None => None
    else None
  }

  function ConvertInvalidProtocol(d: Doc): (r: Option<Message>)
    ensures r.Some? ==> r.value.InvalidProtocol?
  {
    if HasStr(d, "message") then Some(InvalidProtocol(d["message"].str)) else None
  }

  /** The (status, message) pair of a response read back as a `Reply`. */
  function ReplyOf(d: Doc): Reply
    requires HasBool(d, "status") && HasStr(d, "message")
  {
    if d["status"].flag then Done else Refused(d["message"].str)
  }

  predicate HasReply(d: Doc) { HasStr(d, "message") && HasBool(d, "status") }

  function ConvertDirectoryCreateRequest(d: Doc): (r: Option<Message>)
    ensures r.Some? ==> r.value.DirectoryCreateRequest?
  {
    if HasStr(d, "pathName") then Some(DirectoryCreateRequest(d["pathName"].str)) else None
  }

  function ConvertDirectoryCreateResponse(d: Doc): (r: Option<Message>)
    ensures r.Some? ==> r.value.DirectoryCreateResponse?
  {
    if HasStr(d, "pathName") && HasReply(d)
    then Some(DirectoryCreateResponse(d["pathName"].str, ReplyOf(d)))
    else None
  }

  function ConvertDirectoryDeleteRequest(d: Doc): (r: Option<Message>)
    ensures r.Some? ==> r.value.DirectoryDeleteRequest?
  {
    if HasStr(d, "pathName") then Some(DirectoryDeleteRequest(d["pathName"].str)) else None
  }

  function ConvertDirectoryDeleteResponse(d: Doc): (r: Option<Message>)
    ensures r.Some? ==> r.value.DirectoryDeleteResponse?
  {
    if HasStr(d, "pathName") && HasReply(d)
    then Some(DirectoryDeleteResponse(d["pathName"].str, ReplyOf(d)))
    else None
  }

  /** A descriptor document and a path name, the common part of the file messages. */
  predicate HasFileFields(d: Doc) { HasDoc(d, "fileDescriptor") && HasStr(d, "pathName") }

  function ConvertFileCreateRequest(d: Doc): (r: Option<Message>)
    ensures r.Some? ==> r.value.FileCreateRequest?
  {
    if HasFileFields(d)
    then Some(FileCreateRequest(d["fileDescriptor"].fields, d["pathName"].str))
    else None
  }

  function ConvertFileCreateResponse(d: Doc): (r: Option<Message>)
    ensures r.Some? ==> r.value.FileCreateResponse?
  {
    if HasFileFields(d) && HasReply(d)
    then Some(FileCreateResponse(d["fileDescriptor"].fields, d["pathName"].str, ReplyOf(d)))
    else None
  }

  function ConvertFileDeleteRequest(d: Doc): (r: Option<Message>)
    ensures r.Some? ==> r.value.FileDeleteRequest?
  {
    if HasFileFields(d)
    then Some(FileDeleteRequest(d["fileDescriptor"].fields, d["pathName"].str))
    else None
  }

  /** Unlike the other file responses, this one also reads the descriptor's three fields. */
  function ConvertFileDeleteResponse(d: Doc): (r: Option<Message>)
    ensures r.Some? ==> r.value.FileDeleteResponse? && DescriptorTyped(r.value.descriptor)
  {
    if HasFileFields(d) && HasReply(d) && DescriptorTyped(d["fileDescriptor"].fields)
    then Some(FileDeleteResponse(d["fileDescriptor"].fields, d["pathName"].str, ReplyOf(d)))
    else None
  }

  /** The descriptor is rebuilt from its three fields; anything else in it is dropped. */
  function ConvertFileModifyRequest(d: Doc): (r: Option<Message>)
    ensures r.Some? ==> r.value.FileModifyRequest? && DescriptorTyped(r.value.descriptor)
  {
    if HasFileFields(d) && DescriptorTyped(d["fileDescriptor"].fields)
    then Some(FileModifyRequest(Rebuild(d["fileDescriptor"].fields), d["pathName"].str))
    else None
  }

  /**
   * As written, the status is checked for its type and then ignored: the
   * success constructor is always used.
   */
  function ConvertFileModifyResponse(d: Doc): (r: Option<Message>)
    ensures r.Some? ==> r.value.FileModifyResponse? && r.value.reply == Done
  {
    if HasFileFields(d) && HasReply(d) && DescriptorTyped(d["fileDescriptor"].fields)
    then Some(FileModifyResponse(d["fileDescriptor"].fields, d["pathName"].str, Done))
    else None
  }

  /** The file-modify response reader with the status honoured, as the other responses do. */
  function ConvertFileModifyResponseCorrected(d: Doc): (r: Option<Message>)
    ensures r.Some? ==> r.value.FileModifyResponse?
  {
    if HasFileFields(d) && HasReply(d) && DescriptorTyped(d["fileDescriptor"].fields)
    then Some(FileModifyResponse(d["fileDescriptor"].fields, d["pathName"].str, ReplyOf(d)))
    else None
  }

  function ConvertFileBytesRequest(d: Doc): (r: Option<Message>)
    ensures r.Some? ==> r.value.FileBytesRequest? && DescriptorTyped(r.value.descriptor)
  {
    if HasFileFields(d) && DescriptorTyped(d["fileDescriptor"].fields)
       && HasLong(d, "position") && HasLong(d, "length")
    then Some(FileBytesRequest(d["fileDescriptor"].fields, d["pathName"].str,
                               d["position"].long, d["length"].long))
    else None
  }

  function ConvertFileBytesResponse(d: Doc): (r: Option<Message>)
    ensures r.Some? ==> r.value.FileBytesResponse?
  {
    if HasFileFields(d) && HasLong(d, "position") && HasLong(d, "length")
       && HasStr(d, "content") && HasReply(d)
    then Some(FileBytesResponse(d["fileDescriptor"].fields, d["pathName"].str,
                                d["position"].long, d["length"].long, d["content"].str, ReplyOf(d)))
    else None
  }

  function ConvertClientConnectionRequest(d: Doc): (r: Option<Message>)
    requires "identity" in d ==> HasStr(d, "identity")
    ensures r.Some? ==> r.value.ClientConnectionRequest?
  {
    if "identity" in d then Some(ClientConnectionRequest(d["identity"].str)) else None
  }

  /**
   * A key with status true, or no key with status false; the other two
   * combinations, and a missing status, give null.
   */
  function ConvertClientConnectionResponse(d: Doc): (r: Option<Message>)
    requires "status" in d ==> HasBool(d, "status")
    requires "AES128" in d && "status" in d && d["status"].flag ==> HasStr(d, "AES128")
    ensures r.Some? ==> r.value.ClientConnectionResponse?
  {
    if "AES128" in d && "status" in d then
      if d["status"].flag then Some(ClientConnectionResponse(Some(d["AES128"].str))) else None
    else if "status" in d then
      if !d["status"].flag then Some(ClientConnectionResponse(None)) else None
    else None
  }

  function ConvertListPeersResponse(d: Doc): (r: Option<Message>)
    requires "peers" in d ==> HasList(d, "peers") && PeersOf(d["peers"].items).Some?
    ensures r.Some? ==> r.value.ListPeersResponse?
  {
    if "peers" in d then Some(ListPeersResponse(PeersOf(d["peers"].items).value)) else None
  }

  function ConvertConnectPeerResponse(d: Doc): (r: Option<Message>)
    ensures r.Some? ==> r.value.ConnectPeerResponse?
  {
    if HasStr(d, "host") && HasLong(d, "port") && HasBool(d, "status") && HasStr(d, "message")
    then Some(ConnectPeerResponse(d["host"].str, LongToInt(d["port"].long), d["status"].flag, d["message"].str))
    else None
  }

  function ConvertDisconnectPeerRequest(d: Doc): (r: Option<Message>)
    ensures r.Some? ==> r.value.DisconnectPeerRequest?
  {
    if HasStr(d, "host") && HasLong(d, "port")
    then Some(DisconnectPeerRequest(d["host"].str, LongToInt(d["port"].long)))
    else None
  }

  /** The message text must be a string but is not kept: it follows from the status. */
  function ConvertDisconnectPeerResponse(d: Doc): (r: Option<Message>)
    ensures r.Some? ==> r.value.DisconnectPeerResponse?
  {
    if HasStr(d, "host") && HasLong(d, "port") && HasBool(d, "status") && HasStr(d, "message")
    then Some(DisconnectPeerResponse(d["host"].str, LongToInt(d["port"].long), d["status"].flag))
    else None
  }

  /**
   * `ProtocolHelper.convertProtocol` on a parsed document: no string
   * command, or an unknown one, gives null; otherwise the class named by
   * the command converts the document. The connect-peer request's reader is
   * not part of this model: the document is kept whole, minus its command.
   */
  function Decode(d: Doc): (r: Option<Message>)
    requires Convertible(d)
    ensures r.Some? ==> HasStr(d, "command") && CommandName(r.value) == d["command"].str
  {
    if !HasStr(d, "command") then None
    else
      match d["command"].str
      case "CONNECTION_REFUSED" => ConvertConnectionRefused(d)
      case "FILE_MODIFY_REQUEST" => ConvertFileModifyRequest(d)
      case "FILE_MODIFY_RESPONSE" => ConvertFileModifyResponse(d)
      case "HANDSHAKE_REQUEST" => ConvertHandshakeRequest(d)
      case "HANDSHAKE_RESPONSE" => ConvertHandshakeResponse(d)
      case "INVALID_PROTOCOL" => ConvertInvalidProtocol(d)
      case "DIRECTORY_CREATE_REQUEST" => ConvertDirectoryCreateRequest(d)
      case "DIRECTORY_CREATE_RESPONSE" => ConvertDirectoryCreateResponse(d)
      case "DIRECTORY_DELETE_REQUEST" => ConvertDirectoryDeleteRequest(d)
      case "DIRECTORY_DELETE_RESPONSE" => ConvertDirectoryDeleteResponse(d)
      case "FILE_BYTES_REQUEST" => ConvertFileBytesRequest(d)
      case "FILE_BYTES_RESPONSE" => ConvertFileBytesResponse(d)
      case "FILE_CREATE_REQUEST" => ConvertFileCreateRequest(d)
      case "FILE_CREATE_RESPONSE" => ConvertFileCreateResponse(d)
      case "FILE_DELETE_REQUEST" => ConvertFileDeleteRequest(d)
      case "FILE_DELETE_RESPONSE" => ConvertFileDeleteResponse(d)
      case _ => DecodeClient(d)
  }

  /** The second half of the switch: the commands of the client protocol. */
  function DecodeClient(d: Doc): (r: Option<Message>)
    requires Convertible(d) && HasStr(d, "command")
    ensures r.Some? ==> CommandName(r.value) == d["command"].str
  {
    match d["command"].str
    case "AUTH_REQUEST" => ConvertClientConnectionRequest(d)
    case "AUTH_RESPONSE" => ConvertClientConnectionResponse(d)
    case "CONNECT_PEER_REQUEST" => Some(ConnectPeerRequest(d - {"command"}))
    case "CONNECT_PEER_RESPONSE" => ConvertConnectPeerResponse(d)
    case "DISCONNECT_PEER_REQUEST" => ConvertDisconnectPeerRequest(d)
    case "DISCONNECT_PEER_RESPONSE" => ConvertDisconnectPeerResponse(d)
    case "LIST_PEERS_REQUEST" => Some(ListPeersRequest)
    case "LIST_PEERS_RESPONSE" => ConvertListPeersResponse(d)
    case _ => None
  }
}

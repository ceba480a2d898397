/**
 * What reading back a written message gives: the message itself for every
 * class whose reader keeps what its writer wrote, and the exact
 * normalisation for the few that do not.
 */
module CodecLaws {
  import opened JavaTypes
  import opened Documents
  import opened ConnectedPeers
  import opened Messages
  import opened Codec

  /**
   * Messages whose written form is accepted by their reader: the readers of
   * file-delete responses, file-modify messages and byte requests insist on
   * a typed descriptor; every other reader accepts what its writer writes.
   */
  predicate Readable(m: Message)
  {
    match m
    case FileDeleteResponse(fd, _, _) => DescriptorTyped(fd)
    case FileModifyRequest(fd, _) => DescriptorTyped(fd)
    case FileModifyResponse(fd, _, _) => DescriptorTyped(fd)
    case FileBytesRequest(fd, _, _, _) => DescriptorTyped(fd)
    case _ => true
  }

  /**
   * What reading changes in a readable message: a file-modify request's
   * descriptor is cut down to its three fields, a file-modify response
   * becomes a success, and a connect-peer request loses its command key.
   */
  function Normalise(m: Message): Message
    requires Readable(m)
  {
    match m
    case FileModifyRequest(fd, p) => FileModifyRequest(Rebuild(fd), p)
    case FileModifyResponse(fd, p, _) => FileModifyResponse(fd, p, Done)
    case ConnectPeerRequest(raw) => ConnectPeerRequest(raw - {"command"})
    case _ => m
  }

  /** Messages that reading gives back unchanged. */
  predicate Canonical(m: Message)
  {
    && Readable(m)
    && match m
       case FileModifyRequest(fd, _) => fd.Keys == {"md5", "lastModified", "fileSize"}
       case FileModifyResponse(_, _, r) => r == Done
       case ConnectPeerRequest(raw) => "command" !in raw
       case _ => true
  }

  /** A peer list reads back as the peers it was written from. */
  lemma {:induction false} PeerListRoundTrip(ps: seq<Peer>)
    ensures PeersOf(PeerList(ps)) == Some(ps)
    decreases |ps|
  {
    if |ps| > 0 {
      var items := PeerList(ps);
      assert items[1..] == PeerList(ps[1..]);
      PeerListRoundTrip(ps[1..]);
      assert FromDoc(ToDoc(ps[0])) == Some(ps[0]);
      assert [ps[0]] + ps[1..] == ps;
    }
  }

  /** Every written message can be handed to `convertProtocol` without it throwing. */
  lemma EncodeConvertible(m: Message)
    ensures Convertible(Encode(m))
  {
    if m.ConnectionRefused? {
      var items := PeerList(m.peers);
      assert forall i | 0 <= i < |items| :: items[i].VDoc? && "host" in items[i].fields;
    } else if m.ListPeersResponse? {
      PeerListRoundTrip(m.peers);
    } else if m.ClientConnectionRequest? || m.ClientConnectionResponse? {
      AuthConvertible(m);
    } else {
      OrdinaryCommand(m);
      OrdinaryConvertible(Encode(m));
    }
  }

  lemma AuthConvertible(m: Message)
    requires m.ClientConnectionRequest? || m.ClientConnectionResponse?
    ensures Convertible(Encode(m))
  {
  }

  /** A document whose command is none of the four with fragile fields can always be read. */
  lemma OrdinaryConvertible(d: Doc)
    requires HasStr(d, "command")
    requires d["command"].str !in {"CONNECTION_REFUSED", "LIST_PEERS_RESPONSE", "AUTH_REQUEST", "AUTH_RESPONSE"}
    ensures Convertible(d)
  {
  }

  /** Only four commands carry fields whose reading can throw. */
  lemma OrdinaryCommand(m: Message)
    requires !m.ConnectionRefused? && !m.ListPeersResponse?
    requires !m.ClientConnectionRequest? && !m.ClientConnectionResponse?
    ensures CommandName(m) != "CONNECTION_REFUSED" && CommandName(m) != "LIST_PEERS_RESPONSE"
    ensures CommandName(m) != "AUTH_REQUEST" && CommandName(m) != "AUTH_RESPONSE"
  {
  }

  lemma NormalisesHandshakeRequest(m: Message)
    requires m.HandshakeRequest? && Convertible(Encode(m))
    ensures Decode(Encode(m)).Some? <==> Readable(m)
    ensures Readable(m) ==> Decode(Encode(m)) == Some(Normalise(m))
  {
    DecodesHandshakeRequest(Encode(m));
  }

  lemma NormalisesHandshakeResponse(m: Message)
    requires m.HandshakeResponse? && Convertible(Encode(m))
    ensures Decode(Encode(m)).Some? <==> Readable(m)
    ensures Readable(m) ==> Decode(Encode(m)) == Some(Normalise(m))
  {
    DecodesHandshakeResponse(Encode(m));
  }

  lemma NormalisesConnectionRefused(m: Message)
    requires m.ConnectionRefused? && Convertible(Encode(m))
    ensures Decode(Encode(m)).Some? <==> Readable(m)
    ensures Readable(m) ==> Decode(Encode(m)) == Some(Normalise(m))
  {
    DecodesConnectionRefused(Encode(m));
    PeerListRoundTrip(m.peers);
  }

  lemma NormalisesInvalidProtocol(m: Message)
    requires m.InvalidProtocol? && Convertible(Encode(m))
    ensures Decode(Encode(m)).Some? <==> Readable(m)
    ensures Readable(m) ==> Decode(Encode(m)) == Some(Normalise(m))
  {
    DecodesInvalidProtocol(Encode(m));
  }

  lemma NormalisesDirectoryCreateRequest(m: Message)
    requires m.DirectoryCreateRequest? && Convertible(Encode(m))
    ensures Decode(Encode(m)).Some? <==> Readable(m)
    ensures Readable(m) ==> Decode(Encode(m)) == Some(Normalise(m))
  {
    DecodesDirectoryCreateRequest(Encode(m));
  }

  lemma NormalisesDirectoryCreateResponse(m: Message)
    requires m.DirectoryCreateResponse? && Convertible(Encode(m))
    ensures Decode(Encode(m)).Some? <==> Readable(m)
    ensures Readable(m) ==> Decode(Encode(m)) == Some(Normalise(m))
  {
    DecodesDirectoryCreateResponse(Encode(m));
  }

  lemma NormalisesDirectoryDeleteRequest(m: Message)
    requires m.DirectoryDeleteRequest? && Convertible(Encode(m))
    ensures Decode(Encode(m)).Some? <==> Readable(m)
    ensures Readable(m) ==> Decode(Encode(m)) == Some(Normalise(m))
  {
    DecodesDirectoryDeleteRequest(Encode(m));
  }

  lemma NormalisesDirectoryDeleteResponse(m: Message)
    requires m.DirectoryDeleteResponse? && Convertible(Encode(m))
    ensures Decode(Encode(m)).Some? <==> Readable(m)
    ensures Readable(m) ==> Decode(Encode(m)) == Some(Normalise(m))
  {
    DecodesDirectoryDeleteResponse(Encode(m));
  }

  lemma NormalisesFileCreateRequest(m: Message)
    requires m.FileCreateRequest? && Convertible(Encode(m))
    ensures Decode(Encode(m)).Some? <==> Readable(m)
    ensures Readable(m) ==> Decode(Encode(m)) == Some(Normalise(m))
  {
    DecodesFileCreateRequest(Encode(m));
  }

  lemma NormalisesFileCreateResponse(m: Message)
    requires m.FileCreateResponse? && Convertible(Encode(m))
    ensures Decode(Encode(m)).Some? <==> Readable(m)
    ensures Readable(m) ==> Decode(Encode(m)) == Some(Normalise(m))
  {
    DecodesFileCreateResponse(Encode(m));
  }

  lemma NormalisesFileDeleteRequest(m: Message)
    requires m.FileDeleteRequest? && Convertible(Encode(m))
    ensures Decode(Encode(m)).Some? <==> Readable(m)
    ensures Readable(m) ==> Decode(Encode(m)) == Some(Normalise(m))
  {
    DecodesFileDeleteRequest(Encode(m));
  }

  lemma NormalisesFileDeleteResponse(m: Message)
    requires m.FileDeleteResponse? && Convertible(Encode(m))
    ensures Decode(Encode(m)).Some? <==> Readable(m)
    ensures Readable(m) ==> Decode(Encode(m)) == Some(Normalise(m))
  {
    DecodesFileDeleteResponse(Encode(m));
  }

  lemma NormalisesFileModifyRequest(m: Message)
    requires m.FileModifyRequest? && Convertible(Encode(m))
    ensures Decode(Encode(m)).Some? <==> Readable(m)
    ensures Readable(m) ==> Decode(Encode(m)) == Some(Normalise(m))
  {
    DecodesFileModifyRequest(Encode(m));
  }

  lemma NormalisesFileModifyResponse(m: Message)
    requires m.FileModifyResponse? && Convertible(Encode(m))
    ensures Decode(Encode(m)).Some? <==> Readable(m)
    ensures Readable(m) ==> Decode(Encode(m)) == Some(Normalise(m))
  {
    DecodesFileModifyResponse(Encode(m));
  }

  lemma NormalisesFileBytesRequest(m: Message)
    requires m.FileBytesRequest? && Convertible(Encode(m))
    ensures Decode(Encode(m)).Some? <==> Readable(m)
    ensures Readable(m) ==> Decode(Encode(m)) == Some(Normalise(m))
  {
    DecodesFileBytesRequest(Encode(m));
  }

  lemma NormalisesFileBytesResponse(m: Message)
    requires m.FileBytesResponse? && Convertible(Encode(m))
    ensures Decode(Encode(m)).Some? <==> Readable(m)
    ensures Readable(m) ==> Decode(Encode(m)) == Some(Normalise(m))
  {
    DecodesFileBytesResponse(Encode(m));
  }

  lemma NormalisesClientConnectionRequest(m: Message)
    requires m.ClientConnectionRequest? && Convertible(Encode(m))
    ensures Decode(Encode(m)).Some? <==> Readable(m)
    ensures Readable(m) ==> Decode(Encode(m)) == Some(Normalise(m))
  {
    DecodesClientConnectionRequest(Encode(m));
  }

  lemma NormalisesClientConnectionResponse(m: Message)
    requires m.ClientConnectionResponse? && Convertible(Encode(m))
    ensures Decode(Encode(m)).Some? <==> Readable(m)
    ensures Readable(m) ==> Decode(Encode(m)) == Some(Normalise(m))
  {
    DecodesClientConnectionResponse(Encode(m));
  }

  lemma NormalisesListPeersRequest(m: Message)
    requires m.ListPeersRequest? && Convertible(Encode(m))
    ensures Decode(Encode(m)).Some? <==> Readable(m)
    ensures Readable(m) ==> Decode(Encode(m)) == Some(Normalise(m))
  {
    DecodesListPeersRequest(Encode(m));
  }

  lemma NormalisesListPeersResponse(m: Message)
    requires m.ListPeersResponse? && Convertible(Encode(m))
    ensures Decode(Encode(m)).Some? <==> Readable(m)
    ensures Readable(m) ==> Decode(Encode(m)) == Some(Normalise(m))
  {
    DecodesListPeersResponse(Encode(m));
    PeerListRoundTrip(m.peers);
  }

  lemma NormalisesConnectPeerRequest(m: Message)
    requires m.ConnectPeerRequest? && Convertible(Encode(m))
    ensures Decode(Encode(m)).Some? <==> Readable(m)
    ensures Readable(m) ==> Decode(Encode(m)) == Some(Normalise(m))
  {
    DecodesConnectPeerRequest(Encode(m));
    assert Encode(m) - {"command"} == m.raw - {"command"};
  }

  lemma NormalisesConnectPeerResponse(m: Message)
    requires m.ConnectPeerResponse? && Convertible(Encode(m))
    ensures Decode(Encode(m)).Some? <==> Readable(m)
    ensures Readable(m) ==> Decode(Encode(m)) == Some(Normalise(m))
  {
    DecodesConnectPeerResponse(Encode(m));
  }

  lemma NormalisesDisconnectPeerRequest(m: Message)
    requires m.DisconnectPeerRequest? && Convertible(Encode(m))
    ensures Decode(Encode(m)).Some? <==> Readable(m)
    ensures Readable(m) ==> Decode(Encode(m)) == Some(Normalise(m))
  {
    DecodesDisconnectPeerRequest(Encode(m));
  }

  lemma NormalisesDisconnectPeerResponse(m: Message)
    requires m.DisconnectPeerResponse? && Convertible(Encode(m))
    ensures Decode(Encode(m)).Some? <==> Readable(m)
    ensures Readable(m) ==> Decode(Encode(m)) == Some(Normalise(m))
  {
    DecodesDisconnectPeerResponse(Encode(m));
  }


  // `convertProtocol` picks the converter named by the command.

  lemma DecodesHandshakeRequest(d: Doc)
    requires Convertible(d) && HasCommand(d, "HANDSHAKE_REQUEST")
    ensures Decode(d) == ConvertHandshakeRequest(d)
  {
  }

  lemma DecodesHandshakeResponse(d: Doc)
    requires Convertible(d) && HasCommand(d, "HANDSHAKE_RESPONSE")
    ensures Decode(d) == ConvertHandshakeResponse(d)
  {
  }

  lemma DecodesConnectionRefused(d: Doc)
    requires Convertible(d) && HasCommand(d, "CONNECTION_REFUSED")
    ensures Decode(d) == ConvertConnectionRefused(d)
  {
  }

  lemma DecodesInvalidProtocol(d: Doc)
    requires Convertible(d) && HasCommand(d, "INVALID_PROTOCOL")
    ensures Decode(d) == ConvertInvalidProtocol(d)
  {
  }

  lemma DecodesDirectoryCreateRequest(d: Doc)
    requires Convertible(d) && HasCommand(d, "DIRECTORY_CREATE_REQUEST")
    ensures Decode(d) == ConvertDirectoryCreateRequest(d)
  {
  }

  lemma DecodesDirectoryCreateResponse(d: Doc)
    requires Convertible(d) && HasCommand(d, "DIRECTORY_CREATE_RESPONSE")
    ensures Decode(d) == ConvertDirectoryCreateResponse(d)
  {
  }

  lemma DecodesDirectoryDeleteRequest(d: Doc)
    requires Convertible(d) && HasCommand(d, "DIRECTORY_DELETE_REQUEST")
    ensures Decode(d) == ConvertDirectoryDeleteRequest(d)
  {
  }

  lemma DecodesDirectoryDeleteResponse(d: Doc)
    requires Convertible(d) && HasCommand(d, "DIRECTORY_DELETE_RESPONSE")
    ensures Decode(d) == ConvertDirectoryDeleteResponse(d)
  {
  }

  lemma DecodesFileCreateRequest(d: Doc)
    requires Convertible(d) && HasCommand(d, "FILE_CREATE_REQUEST")
    ensures Decode(d) == ConvertFileCreateRequest(d)
  {
  }

  lemma DecodesFileCreateResponse(d: Doc)
    requires Convertible(d) && HasCommand(d, "FILE_CREATE_RESPONSE")
    ensures Decode(d) == ConvertFileCreateResponse(d)
  {
  }

  lemma DecodesFileDeleteRequest(d: Doc)
    requires Convertible(d) && HasCommand(d, "FILE_DELETE_REQUEST")
    ensures Decode(d) == ConvertFileDeleteRequest(d)
  {
  }

  lemma DecodesFileDeleteResponse(d: Doc)
    requires Convertible(d) && HasCommand(d, "FILE_DELETE_RESPONSE")
    ensures Decode(d) == ConvertFileDeleteResponse(d)
  {
  }

  lemma DecodesFileModifyRequest(d: Doc)
    requires Convertible(d) && HasCommand(d, "FILE_MODIFY_REQUEST")
    ensures Decode(d) == ConvertFileModifyRequest(d)
  {
  }

  lemma DecodesFileModifyResponse(d: Doc)
    requires Convertible(d) && HasCommand(d, "FILE_MODIFY_RESPONSE")
    ensures Decode(d) == ConvertFileModifyResponse(d)
  {
  }

  lemma DecodesFileBytesRequest(d: Doc)
    requires Convertible(d) && HasCommand(d, "FILE_BYTES_REQUEST")
    ensures Decode(d) == ConvertFileBytesRequest(d)
  {
  }

  lemma DecodesFileBytesResponse(d: Doc)
    requires Convertible(d) && HasCommand(d, "FILE_BYTES_RESPONSE")
    ensures Decode(d) == ConvertFileBytesResponse(d)
  {
  }

  lemma DecodesClientConnectionRequest(d: Doc)
    requires Convertible(d) && HasCommand(d, "AUTH_REQUEST")
    ensures Decode(d) == ConvertClientConnectionRequest(d)
  {
  }

  lemma DecodesClientConnectionResponse(d: Doc)
    requires Convertible(d) && HasCommand(d, "AUTH_RESPONSE")
    ensures Decode(d) == ConvertClientConnectionResponse(d)
  {
  }

  lemma DecodesListPeersRequest(d: Doc)
    requires Convertible(d) && HasCommand(d, "LIST_PEERS_REQUEST")
    ensures Decode(d) == Some(ListPeersRequest)
  {
  }

  lemma DecodesListPeersResponse(d: Doc)
    requires Convertible(d) && HasCommand(d, "LIST_PEERS_RESPONSE")
    ensures Decode(d) == ConvertListPeersResponse(d)
  {
  }

  lemma DecodesConnectPeerRequest(d: Doc)
    requires Convertible(d) && HasCommand(d, "CONNECT_PEER_REQUEST")
    ensures Decode(d) == Some(ConnectPeerRequest(d - {"command"}))
  {
  }

  lemma DecodesConnectPeerResponse(d: Doc)
    requires Convertible(d) && HasCommand(d, "CONNECT_PEER_RESPONSE")
    ensures Decode(d) == ConvertConnectPeerResponse(d)
  {
  }

  lemma DecodesDisconnectPeerRequest(d: Doc)
    requires Convertible(d) && HasCommand(d, "DISCONNECT_PEER_REQUEST")
    ensures Decode(d) == ConvertDisconnectPeerRequest(d)
  {
  }

  lemma DecodesDisconnectPeerResponse(d: Doc)
    requires Convertible(d) && HasCommand(d, "DISCONNECT_PEER_RESPONSE")
    ensures Decode(d) == ConvertDisconnectPeerResponse(d)
  {
  }

  /** Reading back a written message gives its normal form, or nothing if it is unreadable. */
  lemma DecodeEncodeNormalises(m: Message)
    ensures Convertible(Encode(m))
    ensures Decode(Encode(m)).Some? <==> Readable(m)
    ensures Readable(m) ==> Decode(Encode(m)) == Some(Normalise(m))
  {
    EncodeConvertible(m);
    if || m.HandshakeRequest? || m.HandshakeResponse? || m.ConnectionRefused? || m.InvalidProtocol?
       || m.DirectoryCreateRequest? || m.DirectoryCreateResponse? || m.DirectoryDeleteRequest?
       || m.DirectoryDeleteResponse? || m.FileCreateRequest? || m.FileCreateResponse?
       || m.FileDeleteRequest? || m.FileDeleteResponse?
    {
      NormalisesPeerSync(m);
    } else {
      NormalisesFileTransfer(m);
    }
  }

  /** The handshake, refusal and directory messages, and the file create and delete messages. */
  lemma NormalisesPeerSync(m: Message)
    requires m.HandshakeRequest? || m.HandshakeResponse? || m.ConnectionRefused? ||
             m.InvalidProtocol? || m.DirectoryCreateRequest? || m.DirectoryCreateResponse? ||
             m.DirectoryDeleteRequest? || m.DirectoryDeleteResponse? || m.FileCreateRequest? ||
             m.FileCreateResponse? || m.FileDeleteRequest? || m.FileDeleteResponse?
    requires Convertible(Encode(m))
    ensures Decode(Encode(m)).Some? <==> Readable(m)
    ensures Readable(m) ==> Decode(Encode(m)) == Some(Normalise(m))
  {
    match m
    case HandshakeRequest(_) => NormalisesHandshakeRequest(m);
    case HandshakeResponse(_) => NormalisesHandshakeResponse(m);
    case ConnectionRefused(_) => NormalisesConnectionRefused(m);
    case InvalidProtocol(_) => NormalisesInvalidProtocol(m);
    case DirectoryCreateRequest(_) => NormalisesDirectoryCreateRequest(m);
    case DirectoryCreateResponse(_, _) => NormalisesDirectoryCreateResponse(m);
    case DirectoryDeleteRequest(_) => NormalisesDirectoryDeleteRequest(m);
    case DirectoryDeleteResponse(_, _) => NormalisesDirectoryDeleteResponse(m);
    case FileCreateRequest(_, _) => NormalisesFileCreateRequest(m);
    case FileCreateResponse(_, _, _) => NormalisesFileCreateResponse(m);
    case FileDeleteRequest(_, _) => NormalisesFileDeleteRequest(m);
    case FileDeleteResponse(_, _, _) => NormalisesFileDeleteResponse(m);
  }

  /** The file modify and byte messages and the client protocol. */
  lemma NormalisesFileTransfer(m: Message)
    requires m.FileModifyRequest? || m.FileModifyResponse? || m.FileBytesRequest? ||
             m.FileBytesResponse? || m.ClientConnectionRequest? || m.ClientConnectionResponse? ||
             m.ListPeersRequest? || m.ListPeersResponse? || m.ConnectPeerRequest? ||
             m.ConnectPeerResponse? || m.DisconnectPeerRequest? || m.DisconnectPeerResponse?
    requires Convertible(Encode(m))
    ensures Decode(Encode(m)).Some? <==> Readable(m)
    ensures Readable(m) ==> Decode(Encode(m)) == Some(Normalise(m))
  {
    match m
    case FileModifyRequest(_, _) => NormalisesFileModifyRequest(m);
    case FileModifyResponse(_, _, _) => NormalisesFileModifyResponse(m);
    case FileBytesRequest(_, _, _, _) => NormalisesFileBytesRequest(m);
    case FileBytesResponse(_, _, _, _, _, _) => NormalisesFileBytesResponse(m);
    case ClientConnectionRequest(_) => NormalisesClientConnectionRequest(m);
    case ClientConnectionResponse(_) => NormalisesClientConnectionResponse(m);
    case ListPeersRequest => NormalisesListPeersRequest(m);
    case ListPeersResponse(_) => NormalisesListPeersResponse(m);
    case ConnectPeerRequest(_) => NormalisesConnectPeerRequest(m);
    case ConnectPeerResponse(_, _, _, _) => NormalisesConnectPeerResponse(m);
    case DisconnectPeerRequest(_, _) => NormalisesDisconnectPeerRequest(m);
    case DisconnectPeerResponse(_, _, _) => NormalisesDisconnectPeerResponse(m);
  }

  lemma NormaliseCanonical(m: Message)
    requires Readable(m)
    ensures Normalise(m) == m <==> Canonical(m)
  {
    match m
    case FileModifyRequest(fd, _) => RebuildIdentity(fd);
    case ConnectPeerRequest(raw) =>
      if "command" in raw {
        assert "command" !in raw - {"command"};
      }
    case _ =>
  }

  /**
   * Writing then reading gives a message back exactly for the readable
   * messages, and gives the same message back exactly for the canonical
   * ones.
   */
  lemma DecodeEncode(m: Message)
    ensures Convertible(Encode(m))
    ensures Decode(Encode(m)).Some? <==> Readable(m)
    ensures Decode(Encode(m)) == Some(m) <==> Canonical(m)
  {
    DecodeEncodeNormalises(m);
    if Readable(m) {
      NormaliseCanonical(m);
    }
  }

  /** Everything the reader produces is canonical. */
  lemma DecodeCanonical(d: Doc)
    requires Convertible(d)
    requires Decode(d).Some?
    ensures Canonical(Decode(d).value)
  {
    var m := Decode(d).value;
    if m.ConnectPeerRequest? {
      assert m.raw == d - {"command"};
    }
  }

  /**
   * Re-serialising a received message, as the UDP node does before handing
   * it to the request handler, reads back as the same message.
   */
  lemma ReencodeStable(d: Doc)
    requires Convertible(d)
    requires Decode(d).Some?
    ensures Convertible(Encode(Decode(d).value))
    ensures Decode(Encode(Decode(d).value)) == Decode(d)
  {
    DecodeCanonical(d);
    DecodeEncode(Decode(d).value);
  }

  /**
   * The file-modify response reader drops a refusal: a refused response
   * reads back as a success.
   */
  lemma FileModifyRefusalLost(fd: Doc, p: string, reason: string)
    requires DescriptorTyped(fd)
    ensures Decode(Encode(FileModifyResponse(fd, p, Refused(reason))))
            == Some(FileModifyResponse(fd, p, Done))
  {
    DecodeEncodeNormalises(FileModifyResponse(fd, p, Refused(reason)));
  }

  /** With the status honoured, every readable file-modify response reads back as written. */
  lemma FileModifyResponseCorrectedRoundTrip(fd: Doc, p: string, r: Reply)
    requires DescriptorTyped(fd)
    ensures ConvertFileModifyResponseCorrected(Encode(FileModifyResponse(fd, p, r)))
            == Some(FileModifyResponse(fd, p, r))
  {
  }
}

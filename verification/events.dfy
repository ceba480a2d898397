/**
 * Turning a local file-system event into the request announced to peers
 * (`EventHandler.handleEvent`).
 */
module Events {
  import opened JavaTypes
  import opened Documents
  import opened Messages
  import opened Codec
  import opened CodecLaws

  datatype EventKind = DirectoryCreate | DirectoryDelete | FileCreate | FileDelete | FileModify | OtherEvent

  datatype FileDescriptor = FileDescriptor(md5: string, lastModified: Int64, fileSize: Int64)

  datatype FileSystemEvent = FileSystemEvent(kind: EventKind, pathName: string, descriptor: FileDescriptor)

  /** `FileDescriptor.toDoc`. */
  function DescriptorOf(fd: FileDescriptor): Doc
  {
    DescriptorDoc(fd.md5, fd.lastModified, fd.fileSize)
  }

  /** The exchange an event of each kind opens, if any. */
  function KindExchange(k: EventKind): Option<Exchange>
  {
    match k
    case DirectoryCreate => Some(DirCreate)
    case DirectoryDelete => Some(DirDelete)
    case FileCreate => Some(Exchange.FileCreate)
    case FileDelete => Some(Exchange.FileDelete)
    case FileModify => Some(Exchange.FileModify)
    case OtherEvent => None
  }

  /**
   * The request for an event: directory events carry the path, file events
   * the descriptor document and the path; any other kind gives null.
   */
  function HandleEvent(e: FileSystemEvent): (r: Option<Message>)
    ensures r.Some? <==> e.kind != OtherEvent
    ensures r.Some? ==> IsRequest(r.value) && ExchangeOf(r.value) == KindExchange(e.kind)
    ensures r.Some? && (r.value.DirectoryCreateRequest? || r.value.DirectoryDeleteRequest?)
            ==> r.value.pathName == e.pathName
    ensures r.Some? && (r.value.FileCreateRequest? || r.value.FileDeleteRequest? || r.value.FileModifyRequest?)
            ==> r.value.pathName == e.pathName && r.value.descriptor == DescriptorOf(e.descriptor)
  {
    match e.kind
    case DirectoryCreate => Some(DirectoryCreateRequest(e.pathName))
    case DirectoryDelete => Some(DirectoryDeleteRequest(e.pathName))
    case FileCreate => Some(FileCreateRequest(DescriptorOf(e.descriptor), e.pathName))
    case FileDelete => Some(FileDeleteRequest(DescriptorOf(e.descriptor), e.pathName))
    case FileModify => Some(FileModifyRequest(DescriptorOf(e.descriptor), e.pathName))
    case OtherEvent => None
  }

  /**
   * What a peer reads from the announcement of an event is the
   * announcement itself: the descriptor written by `toDoc` is exactly the
   * one a file-modify reader rebuilds.
   */
  lemma EventRequestRoundTrip(e: FileSystemEvent)
    requires e.kind != OtherEvent
    ensures Convertible(Encode(HandleEvent(e).value))
    ensures Decode(Encode(HandleEvent(e).value)) == HandleEvent(e)
  {
    DecodeEncode(HandleEvent(e).value);
  }
}

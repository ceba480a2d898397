/**
 * What a peer does with a file-system message it receives
 * (`RequestHandler.handleRequest`): which replies it sends back and which
 * calls it makes on its file-system manager.
 *
 * The file-system manager is seen through a `Store` (which path names are
 * safe, which directories and files exist, and each file's content hash)
 * and an `Outcomes` record giving what each mutating call returns or
 * whether it throws. The handler's answer is a `Handled` value: the replies
 * in order, and the calls made on the manager in order.
 */
module Dispatcher {
  import opened JavaTypes
  import opened Documents
  import opened Messages
  import opened Codec
  import opened Transfer

  /** The manager's view of the share: path-name safety, directories, files and their md5. */
  datatype Store = Store(safe: set<string>, dirs: set<string>, files: map<string, string>)

  /** What a call on the manager did: returned a value, or threw a checked exception. */
  datatype Io<T> = Returned(value: T) | Threw

  /**
   * What each call on the manager yields this time. `read` is the
   * Base64 text of the bytes read, or `None` for a null buffer.
   */
  datatype Outcomes = Outcomes(
    makeDirectory: bool,
    deleteDirectory: bool,
    deleteFile: bool,
    loader: Io<bool>,
    shortcut: Io<bool>,
    read: Io<Option<string>>,
    write: Io<bool>,
    writeComplete: Io<bool>)

  /** A call the handler makes on the manager. */
  datatype Effect =
    | MakeDirectory(path: string)
    | DeleteDirectory(path: string)
    | CreateFileLoader(path: string, md5: Option<string>, fileSize: Int64, lastModified: Int64)
    | ModifyFileLoader(path: string, md5: Option<string>, lastModified: Int64)
    | CheckShortcut(path: string)
    | DeleteFile(path: string, lastModified: Int64, md5: Option<string>)
    | ReadFile(md5: Option<string>, position: Int64, length: Int64)
    | WriteFile(path: string, position: Int64, content: string)
    | CheckWriteComplete(path: string)
    | CancelFileLoader(path: string)

  datatype Handled = Handled(replies: seq<Message>, effects: seq<Effect>)

  // Texts of refusals and of the invalid-protocol reply.
  const Unsafe := "unsafe pathname given"
  const AlreadyExists := "pathname already exists"
  const DoesNotExist := "pathname does not exist"
  const SameContent := "file already exists with matching content"
  const DirectoryCreateFailed := "there was a problem creating the directory"
  const DirectoryDeleteFailed := "there was a problem deleting the directory"
  const FileCreateFailed := "there was a problem creating the file"
  const FileDeleteFailed := "there was a problem deleting the file"
  const FileModifyFailed := "there was a problem modifying the file"
  const ReadFailed := "unsuccessful read"
  const ProtocolInvalid := "the protocol is invalid"

  /** `getString(k)` neither throws nor is asked of a non-string: absent, or a string. */
  predicate MaybeStr(d: Doc, k: string) { k in d ==> d[k].VStr? }

  /** `getString("md5")`: null when the key is absent. */
  function Md5(d: Doc): (r: Option<string>)
    requires MaybeStr(d, "md5")
    ensures r.Some? <==> "md5" in d
    ensures r.Some? ==> d["md5"] == VStr(r.value)
  {
    if "md5" in d then Some(d["md5"].str) else None
  }

  /** `fileNameExists(path, md5)`: the file exists and its content has that hash. */
  predicate ExistsWith(st: Store, p: string, md5: Option<string>)
  {
    p in st.files && md5 == Some(st.files[p])
  }

  // ---------------------------------------------------------------------
  // Directories
  // ---------------------------------------------------------------------

  /** A directory-create request: refuse unsafe or existing names, else try to make it. */
  function CreateDirectory(st: Store, io: Outcomes, p: string): (h: Handled)
    ensures |h.replies| == 1 && h.replies[0].DirectoryCreateResponse? && h.replies[0].pathName == p
    ensures h.replies[0].reply == Done <==> p in st.safe && p !in st.dirs && io.makeDirectory
    ensures p !in st.safe ==> h.replies[0].reply == Refused(Unsafe)
    ensures p in st.safe && p in st.dirs ==> h.replies[0].reply == Refused(AlreadyExists)
    ensures h.effects != [] <==> p in st.safe && p !in st.dirs
    ensures h.effects != [] ==> h.effects == [MakeDirectory(p)]
  {
    if p !in st.safe then Handled([DirectoryCreateResponse(p, Refused(Unsafe))], [])
    else if p in st.dirs then Handled([DirectoryCreateResponse(p, Refused(AlreadyExists))], [])
    else if io.makeDirectory then Handled([DirectoryCreateResponse(p, Done)], [MakeDirectory(p)])
    else Handled([DirectoryCreateResponse(p, Refused(DirectoryCreateFailed))], [MakeDirectory(p)])
  }

  /** A directory-delete request: refuse unsafe or missing names, else try to delete it. */
  function DeleteDirectoryRequest(st: Store, io: Outcomes, p: string): (h: Handled)
    ensures |h.replies| == 1 && h.replies[0].DirectoryDeleteResponse? && h.replies[0].pathName == p
    ensures h.replies[0].reply == Done <==> p in st.safe && p in st.dirs && io.deleteDirectory
    ensures p !in st.safe ==> h.replies[0].reply == Refused(Unsafe)
    ensures p in st.safe && p !in st.dirs ==> h.replies[0].reply == Refused(DoesNotExist)
    ensures h.effects != [] <==> p in st.safe && p in st.dirs
    ensures h.effects != [] ==> h.effects == [DeleteDirectory(p)]
  {
    if p !in st.safe then Handled([DirectoryDeleteResponse(p, Refused(Unsafe))], [])
    else if p !in st.dirs then Handled([DirectoryDeleteResponse(p, Refused(DoesNotExist))], [])
    else if io.deleteDirectory then Handled([DirectoryDeleteResponse(p, Done)], [DeleteDirectory(p)])
    else Handled([DirectoryDeleteResponse(p, Refused(DirectoryDeleteFailed))], [DeleteDirectory(p)])
  }

  // ---------------------------------------------------------------------
  // Files
  // ---------------------------------------------------------------------

  /**
   * After a file loader is ready: ask for the first block unless the
   * manager found a local copy with the same content (a shortcut). When
   * the shortcut check throws, the bytes are asked for anyway.
   */
  function FirstBytes(io: Outcomes, d: Doc, p: string, configured: Int64): (rs: seq<Message>)
    requires HasLong(d, "fileSize")
    ensures |rs| <= 1
    ensures rs == [] <==> io.shortcut == Returned(true)
    ensures rs != [] ==> rs[0] == FileBytesRequest(d, p, 0, FirstChunk(d["fileSize"].long, configured).length)
  {
    if io.shortcut == Returned(true) then []
    else [FileBytesRequest(d, p, 0, FirstChunk(d["fileSize"].long, configured).length)]
  }

  /** The create request passes its name checks: a safe name, and no file with that name and content. */
  predicate CreateProceeds(st: Store, d: Doc, p: string)
    requires MaybeStr(d, "md5")
  {
    p in st.safe && !ExistsWith(st, p, Md5(d))
  }

  /** What `getString`/`getLong` on the file-create path need of the descriptor. */
  predicate CreateReadable(st: Store, d: Doc, p: string)
  {
    && MaybeStr(d, "md5")
    && (CreateProceeds(st, d, p) ==> HasLong(d, "lastModified") && HasLong(d, "fileSize"))
  }

  /**
   * A file-create request. A name that exists with other content is
   * handled as a modification: the loader is a modify loader.
   */
  function CreateFile(st: Store, io: Outcomes, d: Doc, p: string, configured: Int64): (h: Handled)
    requires CreateReadable(st, d, p)
    ensures 1 <= |h.replies| <= 2
    ensures h.replies[0].FileCreateResponse? && h.replies[0].descriptor == d && h.replies[0].pathName == p
    ensures h.replies[0].reply == Done <==> CreateProceeds(st, d, p) && io.loader == Returned(true)
    ensures p !in st.safe ==> h.replies[0].reply == Refused(Unsafe)
    ensures p in st.safe && ExistsWith(st, p, Md5(d)) ==> h.replies[0].reply == Refused(AlreadyExists)
    ensures |h.replies| == 2 <==> h.replies[0].reply == Done && io.shortcut != Returned(true)
    ensures |h.replies| == 2
            ==> h.replies[1] == FileBytesRequest(d, p, 0, FirstChunk(d["fileSize"].long, configured).length)
    ensures h.effects != [] <==> CreateProceeds(st, d, p)
    ensures h.effects != [] && p in st.files ==> h.effects[0] == ModifyFileLoader(p, Md5(d), d["lastModified"].long)
    ensures h.effects != [] && p !in st.files
            ==> h.effects[0] == CreateFileLoader(p, Md5(d), d["fileSize"].long, d["lastModified"].long)
  {
    if p !in st.safe then Handled([FileCreateResponse(d, p, Refused(Unsafe))], [])
    else
      var md5 := Md5(d);
      if ExistsWith(st, p, md5) then Handled([FileCreateResponse(d, p, Refused(AlreadyExists))], [])
      else
        var loader :=
          if p in st.files then ModifyFileLoader(p, md5, d["lastModified"].long)
          else CreateFileLoader(p, md5, d["fileSize"].long, d["lastModified"].long);
        if io.loader == Returned(true) then
          Handled([FileCreateResponse(d, p, Done)] + FirstBytes(io, d, p, configured), [loader, CheckShortcut(p)])
        else
          Handled([FileCreateResponse(d, p, Refused(FileCreateFailed))], [loader])
  }

  /** The delete request passes its name checks: a safe name of an existing file. */
  predicate DeleteProceeds(st: Store, p: string)
  {
    p in st.safe && p in st.files
  }

  predicate DeleteReadable(st: Store, d: Doc, p: string)
  {
    DeleteProceeds(st, p) ==> MaybeStr(d, "md5") && HasLong(d, "lastModified")
  }

  /** A file-delete request. */
  function DeleteFileRequest(st: Store, io: Outcomes, d: Doc, p: string): (h: Handled)
    requires DeleteReadable(st, d, p)
    ensures |h.replies| == 1
    ensures h.replies[0].FileDeleteResponse? && h.replies[0].descriptor == d && h.replies[0].pathName == p
    ensures h.replies[0].reply == Done <==> DeleteProceeds(st, p) && io.deleteFile
    ensures p !in st.safe ==> h.replies[0].reply == Refused(Unsafe)
    ensures p in st.safe && p !in st.files ==> h.replies[0].reply == Refused(DoesNotExist)
    ensures h.effects != [] <==> DeleteProceeds(st, p)
    ensures h.effects != [] ==> h.effects == [DeleteFile(p, d["lastModified"].long, Md5(d))]
  {
    if p !in st.safe then Handled([FileDeleteResponse(d, p, Refused(Unsafe))], [])
    else if p !in st.files then Handled([FileDeleteResponse(d, p, Refused(DoesNotExist))], [])
    else
      var e := DeleteFile(p, d["lastModified"].long, Md5(d));
      if io.deleteFile then Handled([FileDeleteResponse(d, p, Done)], [e])
      else Handled([FileDeleteResponse(d, p, Refused(FileDeleteFailed))], [e])
  }

  /** The modify request passes its name checks: a safe name of an existing file with other content. */
  predicate ModifyProceeds(st: Store, d: Doc, p: string)
    requires MaybeStr(d, "md5")
  {
    p in st.safe && !ExistsWith(st, p, Md5(d)) && p in st.files
  }

  predicate ModifyReadable(st: Store, d: Doc, p: string)
  {
    && MaybeStr(d, "md5")
    && (ModifyProceeds(st, d, p) ==> HasLong(d, "lastModified") && HasLong(d, "fileSize"))
  }

  /** A file-modify request. */
  function ModifyFile(st: Store, io: Outcomes, d: Doc, p: string, configured: Int64): (h: Handled)
    requires ModifyReadable(st, d, p)
    ensures 1 <= |h.replies| <= 2
    ensures h.replies[0].FileModifyResponse? && h.replies[0].descriptor == d && h.replies[0].pathName == p
    ensures h.replies[0].reply == Done <==> ModifyProceeds(st, d, p) && io.loader == Returned(true)
    ensures p !in st.safe ==> h.replies[0].reply == Refused(Unsafe)
    ensures p in st.safe && ExistsWith(st, p, Md5(d)) ==> h.replies[0].reply == Refused(SameContent)
    ensures p in st.safe && p !in st.files ==> h.replies[0].reply == Refused(DoesNotExist)
    ensures |h.replies| == 2 <==> h.replies[0].reply == Done && io.shortcut != Returned(true)
    ensures |h.replies| == 2
            ==> h.replies[1] == FileBytesRequest(d, p, 0, FirstChunk(d["fileSize"].long, configured).length)
    ensures h.effects != [] <==> ModifyProceeds(st, d, p)
    ensures h.effects != [] ==> h.effects[0] == ModifyFileLoader(p, Md5(d), d["lastModified"].long)
  {
    if p !in st.safe then Handled([FileModifyResponse(d, p, Refused(Unsafe))], [])
    else
      var md5 := Md5(d);
      if ExistsWith(st, p, md5) then Handled([FileModifyResponse(d, p, Refused(SameContent))], [])
      else if p !in st.files then Handled([FileModifyResponse(d, p, Refused(DoesNotExist))], [])
      else
        var loader := ModifyFileLoader(p, md5, d["lastModified"].long);
        if io.loader == Returned(true) then
          Handled([FileModifyResponse(d, p, Done)] + FirstBytes(io, d, p, configured), [loader, CheckShortcut(p)])
        else
          Handled([FileModifyResponse(d, p, Refused(FileModifyFailed))], [loader])
  }

  // ---------------------------------------------------------------------
  // File bytes
  // ---------------------------------------------------------------------

  /** A byte request: read the block named by the descriptor's md5 and send it back. */
  function ReadBytes(st: Store, io: Outcomes, d: Doc, p: string, position: Int64, length: Int64): (h: Handled)
    requires p in st.safe ==> MaybeStr(d, "md5")
    ensures |h.replies| == 1
    ensures var r := h.replies[0];
            && r.FileBytesResponse? && r.descriptor == d && r.pathName == p
            && r.position == position && r.length == length
    ensures h.replies[0].reply == Done <==> p in st.safe && io.read.Returned? && io.read.value.Some?
    ensures h.replies[0].reply == Done ==> h.replies[0].content == io.read.value.value
    ensures h.replies[0].reply != Done ==> h.replies[0].content == ""
    ensures p !in st.safe ==> h.replies[0].reply == Refused(Unsafe)
    ensures p in st.safe ==> h.effects == [ReadFile(Md5(d), position, length)]
    ensures p !in st.safe ==> h.effects == []
  {
    if p !in st.safe then Handled([FileBytesResponse(d, p, position, length, "", Refused(Unsafe))], [])
    else
      var e := ReadFile(Md5(d), position, length);
      match io.read
      case Returned(Some(content)) => Handled([FileBytesResponse(d, p, position, length, content, Done)], [e])
      case _ => Handled([FileBytesResponse(d, p, position, length, "", Refused(ReadFailed))], [e])
  }

  /** The byte reply reaches the write step with a successful write. */
  predicate Written(st: Store, io: Outcomes, p: string, reply: Reply)
  {
    p in st.safe && reply == Done && io.write == Returned(true)
  }

  predicate WriteReadable(st: Store, io: Outcomes, d: Doc, p: string, reply: Reply)
  {
    Written(st, io, p, reply) ==> HasLong(d, "fileSize")
  }

  /**
   * A byte reply. An unsafe name is ignored; a refused read, a failed
   * write, or an incomplete file after the last block cancels the loader;
   * after a successful write the next block is asked for, if any remains.
   */
  function WriteBytes(st: Store, io: Outcomes, d: Doc, p: string, position: Int64, length: Int64,
                      content: string, reply: Reply, configured: Int64): (h: Handled)
    requires WriteReadable(st, io, d, p, reply)
    ensures |h.replies| <= 1
    ensures h.replies != [] <==>
            Written(st, io, p, reply) && NextChunk(d["fileSize"].long, position, length, configured).Some?
    ensures h.replies != [] ==>
            var c := NextChunk(d["fileSize"].long, position, length, configured).value;
            h.replies[0] == FileBytesRequest(d, p, c.position, c.length)
    ensures p !in st.safe ==> h.effects == []
    ensures p in st.safe && reply == Done ==> |h.effects| >= 1 && h.effects[0] == WriteFile(p, position, content)
    ensures CancelFileLoader(p) in h.effects <==>
            && p in st.safe
            && (|| reply != Done
                || io.write != Returned(true)
                || (NextChunk(d["fileSize"].long, position, length, configured).None?
                    && io.writeComplete != Returned(true)))
  {
    if p !in st.safe then Handled([], [])
    else if reply != Done then Handled([], [CancelFileLoader(p)])
    else
      var w := WriteFile(p, position, content);
      if io.write != Returned(true) then Handled([], [w, CancelFileLoader(p)])
      else
        match NextChunk(d["fileSize"].long, position, length, configured)
        case Some(c) => Handled([FileBytesRequest(d, p, c.position, c.length)], [w])
        case None =>
          if io.writeComplete == Returned(true) then Handled([], [w, CheckWriteComplete(p)])
          else Handled([], [w, CheckWriteComplete(p), CancelFileLoader(p)])
  }

  // ---------------------------------------------------------------------
  // Dispatch
  // ---------------------------------------------------------------------

  /** What reading the descriptor on the branch a message takes needs, so that no getter throws. */
  predicate HandlerDefined(st: Store, io: Outcomes, m: Option<Message>)
  {
    match m
    case Some(FileCreateRequest(d, p)) => CreateReadable(st, d, p)
    case Some(FileDeleteRequest(d, p)) => DeleteReadable(st, d, p)
    case Some(FileModifyRequest(d, p)) => ModifyReadable(st, d, p)
    case Some(FileBytesRequest(d, p, _, _)) => p in st.safe ==> MaybeStr(d, "md5")
    case Some(FileBytesResponse(d, p, _, _, _, r)) => WriteReadable(st, io, d, p, r)
    case _ => true
  }

  /**
   * `handleRequest` on an already decoded message (`None` when decoding
   * gave null). Messages about connections are not handled here and get
   * no reply.
   */
  function HandleRequest(st: Store, io: Outcomes, m: Option<Message>, configured: Int64): (h: Handled)
    requires HandlerDefined(st, io, m)
    ensures m.None? ==> h == Handled([InvalidProtocol(ProtocolInvalid)], [])
    ensures m.Some? && ExchangeOf(m.value).None? ==> h == Handled([], [])
    ensures m.Some? && !IsRequest(m.value) && !m.value.FileBytesResponse? ==> h == Handled([], [])
  {
    match m
    case None => Handled([InvalidProtocol(ProtocolInvalid)], [])
    case Some(DirectoryCreateRequest(p)) => CreateDirectory(st, io, p)
    case Some(DirectoryDeleteRequest(p)) => DeleteDirectoryRequest(st, io, p)
    case Some(FileCreateRequest(d, p)) => CreateFile(st, io, d, p, configured)
    case Some(FileDeleteRequest(d, p)) => DeleteFileRequest(st, io, d, p)
    case Some(FileModifyRequest(d, p)) => ModifyFile(st, io, d, p, configured)
    case Some(FileBytesRequest(d, p, pos, len)) => ReadBytes(st, io, d, p, pos, len)
    case Some(FileBytesResponse(d, p, pos, len, c, r)) => WriteBytes(st, io, d, p, pos, len, c, r, configured)
    case Some(_) => Handled([], [])
  }

  /** `handleRequest` on a received document: decode, then handle. */
  function HandleDocument(st: Store, io: Outcomes, doc: Doc, configured: Int64): (h: Handled)
    requires Convertible(doc) && HandlerDefined(st, io, Decode(doc))
    ensures !HasStr(doc, "command") ==> h == Handled([InvalidProtocol(ProtocolInvalid)], [])
  {
    HandleRequest(st, io, Decode(doc), configured)
  }

  // ---------------------------------------------------------------------
  // Properties
  // ---------------------------------------------------------------------

  /** The requests this handler answers: directory, file and byte requests. */
  predicate FileSystemRequest(m: Message)
  {
    m.DirectoryCreateRequest? || m.DirectoryDeleteRequest? || m.FileCreateRequest?
    || m.FileDeleteRequest? || m.FileModifyRequest? || m.FileBytesRequest?
  }

  /**
   * Every file-system request gets a first reply that its own `pairTo`
   * accepts, so the sender can retire it; and that pairing is the intended
   * one (same exchange, same path, same position).
   */
  lemma ReplyAnswersRequest(st: Store, io: Outcomes, m: Message, configured: Int64)
    requires FileSystemRequest(m) && HandlerDefined(st, io, Some(m))
    ensures var h := HandleRequest(st, io, Some(m), configured);
            && |h.replies| >= 1
            && PairTo(m, h.replies[0])
            && IntendedPair(m, h.replies[0])
  {
    var h := HandleRequest(st, io, Some(m), configured);
    PairToAgreesWithIntent(m, h.replies[0]);
  }

  /** A request about an unsafe path name is refused and touches nothing. */
  lemma UnsafeRequestTouchesNothing(st: Store, io: Outcomes, m: Message, configured: Int64)
    requires FileSystemRequest(m) && HandlerDefined(st, io, Some(m)) && m.pathName !in st.safe
    ensures var h := HandleRequest(st, io, Some(m), configured);
            && h.effects == []
            && |h.replies| == 1
            && h.replies[0].reply == Refused(Unsafe)
  {
  }

  /**
   * A non-empty file's transfer begins at the head of its schedule: the
   * byte request sent with a ready loader is the schedule's first chunk.
   */
  lemma FirstRequestStartsSchedule(st: Store, io: Outcomes, m: Message, configured: Int64)
    requires (m.FileCreateRequest? || m.FileModifyRequest?) && HandlerDefined(st, io, Some(m))
    requires 0 < configured
    ensures var h := HandleRequest(st, io, Some(m), configured);
            |h.replies| == 2 && 0 <= m.descriptor["fileSize"].long
            ==> var c := Schedule(m.descriptor["fileSize"].long, configured)[0];
                h.replies[1] == FileBytesRequest(m.descriptor, m.pathName, c.position, c.length)
  {
  }

  /**
   * With every write succeeding, the receiver walks the schedule: the reply
   * to the bytes of the i-th chunk asks for the (i+1)-th, and the reply to
   * the last chunk asks for nothing and checks that the file is complete.
   */
  lemma WritesFollowSchedule(st: Store, io: Outcomes, d: Doc, p: string, content: string,
                             configured: Int64, i: nat)
    requires p in st.safe && io.write == Returned(true) && HasLong(d, "fileSize")
    requires 0 <= d["fileSize"].long && 0 < configured
    requires i < |Schedule(d["fileSize"].long, configured)|
    ensures var s := Schedule(d["fileSize"].long, configured);
            var h := WriteBytes(st, io, d, p, s[i].position, s[i].length, content, Done, configured);
            && (i + 1 < |s| ==> h == Handled([FileBytesRequest(d, p, s[i + 1].position, s[i + 1].length)],
                                             [WriteFile(p, s[i].position, content)]))
            && (i + 1 == |s| ==> h.replies == [] && CheckWriteComplete(p) in h.effects)
  {
    ScheduleSteps(d["fileSize"].long, configured);
  }
}

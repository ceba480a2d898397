/**
 * The node's JSON `Document`, as a value after parsing: a map from keys to
 * strings, longs, booleans, nested documents and lists. JSON integers always
 * parse as `long`. A key that is absent is the only way to be null.
 */
module Documents {
  import opened JavaTypes

  datatype Value =
    | VStr(str: string)
    | VLong(long: Int64)
    | VBool(flag: bool)
    | VDoc(fields: map<string, Value>)
    | VList(items: seq<Value>)

  type Doc = map<string, Value>

  /** `getString(k)` would return a non-null string. */
  predicate HasStr(d: Doc, k: string) { k in d && d[k].VStr? }

  /** `getLong(k)` would return without throwing. */
  predicate HasLong(d: Doc, k: string) { k in d && d[k].VLong? }

  /** `getBoolean(k)` would return without throwing. */
  predicate HasBool(d: Doc, k: string) { k in d && d[k].VBool? }

  /** `(Document) get(k)` would return a non-null document. */
  predicate HasDoc(d: Doc, k: string) { k in d && d[k].VDoc? }

  /** `(ArrayList) get(k)` would return a non-null list. */
  predicate HasList(d: Doc, k: string) { k in d && d[k].VList? }

  /**
   * A file descriptor whose three fields have the types the readers expect:
   * `md5` a string, `lastModified` and `fileSize` longs.
   */
  predicate DescriptorTyped(d: Doc)
  {
    HasStr(d, "md5") && HasLong(d, "lastModified") && HasLong(d, "fileSize")
  }

  /** The descriptor document written by `FileDescriptor.toDoc`. */
  function DescriptorDoc(md5: string, lastModified: Int64, fileSize: Int64): (d: Doc)
    ensures DescriptorTyped(d)
    ensures d.Keys == {"md5", "lastModified", "fileSize"}
    ensures d["md5"].str == md5 && d["lastModified"].long == lastModified && d["fileSize"].long == fileSize
  {
    map["md5" := VStr(md5), "lastModified" := VLong(lastModified), "fileSize" := VLong(fileSize)]
  }

  /** A descriptor rebuilt from its three typed fields, dropping anything else. */
  function Rebuild(d: Doc): (r: Doc)
    requires DescriptorTyped(d)
    ensures DescriptorTyped(r) && r.Keys == {"md5", "lastModified", "fileSize"}
    ensures forall k | k in r :: k in d && r[k] == d[k]
  {
    DescriptorDoc(d["md5"].str, d["lastModified"].long, d["fileSize"].long)
  }

  /** A descriptor survives `Rebuild` exactly when it has no extra keys. */
  lemma RebuildIdentity(d: Doc)
    requires DescriptorTyped(d)
    ensures Rebuild(d) == d <==> d.Keys == {"md5", "lastModified", "fileSize"}
  {
    if d.Keys == {"md5", "lastModified", "fileSize"} {
      assert forall k | k in d :: Rebuild(d)[k] == d[k];
    }
  }
}

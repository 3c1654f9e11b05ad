/** The records a Storage Server keeps for one file (include/ss/file_storage.h, include/common/acl.h). */
module Records {
  const MAX_SENTENCE_METADATA := 1024
  const MAX_PENDING_REQUESTS := 64
  const MAX_ACL_ENTRIES := 100

  datatype Option<+T> = None | Some(value: T)

  datatype AclEntry = AclEntry(user: string, read: bool, write: bool)

  datatype Acl = Acl(owner: string, entries: seq<AclEntry>)

  /** One row of the sentence table. */
  datatype Row = Row(id: int, version: int, offset: nat, length: nat, words: int, chars: int)

  datatype Pending = Pending(requestId: int, requester: string, access: char, timestamp: int)

  datatype FileMeta = FileMeta(
    owner: string,
    folder: string,
    created: int,
    lastModified: int,
    lastAccessed: int,
    sizeBytes: nat,
    wordCount: int,
    charCount: int,
    rows: seq<Row>,
    nextId: int,
    acl: Acl,
    pending: seq<Pending>)
}

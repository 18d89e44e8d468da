/**
 * keys.json as a versioned document: its content (absent until first
 * written) and an opaque revision token. A write names the revision it
 * was computed from and is refused when that is not the current one.
 */
module Store {
  import opened Wrappers
  import opened Keys

  /** What a read returns: the records and the revision they belong to. */
  datatype Document = Document(keys: seq<Record>, sha: nat)

  class KeyFile {
    var content: Option<seq<Record>>
    var revision: nat

    constructor (content: Option<seq<Record>>)
      ensures this.content == content && revision == 0
    {
      this.content := content;
      revision := 0;
    }

    /** Read the document; None when the file does not exist. */
    method Fetch() returns (doc: Option<Document>)
      ensures doc.None? <==> content.None?
      ensures doc.Some? ==> doc.value.keys == content.value && doc.value.sha == revision
    {
      if content.None? {
        doc := None;
      } else {
        doc := Some(Document(content.value, revision));
      }
    }

    /**
     * Replace the document. A write to an existing file must carry its
     * current revision; a write that creates the file carries none.
     */
    method Replace(keys: seq<Record>, sha: Option<nat>) returns (ok: bool)
      modifies this
      ensures ok <==> if old(content).None? then sha.None? else sha == Some(old(revision))
      ensures ok ==> content == Some(keys) && revision == old(revision) + 1
      ensures !ok ==> content == old(content) && revision == old(revision)
    {
      ok := if content.None? then sha.None? else sha == Some(revision);
      if ok {
        content := Some(keys);
        revision := revision + 1;
      }
    }
  }

  /** The records a handler works on when the file may be absent. */
  function StoredKeys(content: Option<seq<Record>>): (keys: seq<Record>) {
    if content.None? then [] else content.value
  }
}

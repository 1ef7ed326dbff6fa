/**
 * document.Doc: a uniquely identifiable document whose data lives in a
 * RawDoc it points to. The ID is set once; Copy makes a document with
 * its own RawDoc.
 */
module Document {

  /** The raw data of a document: its unique ID. */
  class RawDoc {
    var id: string

    constructor (id: string)
      ensures this.id == id
    {
      this.id := id;
    }
  }

  class Doc {
    var raw: RawDoc

    constructor (raw: RawDoc)
      ensures this.raw == raw
    {
      this.raw := raw;
    }

    /** ID: the ID in the raw data. */
    function ID(): (r: string)
      reads this, raw
      ensures r == raw.id
    {
      raw.id
    }

    /** SetID: set-once; reports whether an ID was already there, in which case nothing changes. */
    method SetID(id: string) returns (alreadySet: bool)
      modifies raw
      ensures alreadySet == (old(raw.id) != "")
      ensures raw.id == if alreadySet then old(raw.id) else id
    {
      if raw.id != "" {
        return true;
      }
      raw.id := id;
      return false;
    }

    /** Copy: a new document over a shallow copy of the raw data, given `id`; this document is unchanged. */
    method Copy(id: string) returns (d: Doc)
      ensures fresh(d) && fresh(d.raw)
      ensures d.raw.id == id && d.ID() == id
    {
      var copied := new RawDoc(raw.id);
      copied.id := id;
      d := new Doc(copied);
    }
  }
}

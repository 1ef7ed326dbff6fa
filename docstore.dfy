/**
 * The memory-backed DocStorage of filestorage/basic: documents kept in
 * a map from their generated IDs.
 */
module DocStore {
  import opened Wrappers
  import opened Document

  /** The errors of the store, by kind and message. */
  datatype StoreError =
    | NotFound(id: string)           // errors.NotFoundf(id)
    | AlreadyExists(what: string)    // errors.AlreadyExistsf("ID already set")
    | IDFailed(cause: string)        // "error while creating ID: ..."

  predicate NoDup(ks: seq<string>) {
    forall i, j :: 0 <= i < j < |ks| ==> ks[i] != ks[j]
  }

  class DocStorage {
    var docs: map<string, Doc?>

    /** NewDocStorage: an empty store. */
    constructor ()
      ensures docs == map[]
    {
      docs := map[];
    }

    /** lookUp: the document stored under `id`, or NotFound. */
    function LookUp(id: string): (r: Result<Doc?, StoreError>)
      reads this
      ensures r.Ok? <==> id in docs
      ensures r.Ok? ==> r.value == docs[id]
      ensures r.Err? ==> r.error == NotFound(id)
    {
      if id in docs then Ok(docs[id]) else Err(NotFound(id))
    }

    /** Doc: a copy of the stored document carrying `id`, not the stored document itself; NotFound for an unknown id. */
    method GetDoc(id: string) returns (r: Result<Doc, StoreError>)
      requires id in docs ==> docs[id] != null
      ensures r.Err? <==> id !in docs
      ensures r.Err? ==> r.error == NotFound(id)
      ensures r.Ok? ==> fresh(r.value) && r.value.ID() == id
    {
      var raw := LookUp(id);
      if raw.Err? {
        return Err(raw.error);
      }
      var copy := raw.value.Copy(id);
      return Ok(copy);
    }

    /**
     * ListDocs: every stored document that is not nil, once per key, in
     * no particular order; `keys` records the order the map yields them in.
     */
    method ListDocs() returns (list: seq<Doc>, ghost keys: seq<string>, err: Option<StoreError>)
      ensures err.None?
      ensures NoDup(keys) && |list| == |keys|
      ensures forall k :: k in keys <==> k in docs && docs[k] != null
      ensures forall i :: 0 <= i < |keys| ==> keys[i] in docs && list[i] == docs[keys[i]]
    {
      list, keys := [], [];
      var rest := docs.Keys;
      while rest != {}
        invariant rest <= docs.Keys
        invariant NoDup(keys) && |list| == |keys|
        invariant forall k :: k in keys <==> k in docs.Keys - rest && docs[k] != null
        invariant forall i :: 0 <= i < |keys| ==> keys[i] in docs && list[i] == docs[keys[i]]
        decreases |rest|
      {
        var k :| k in rest;
        rest := rest - {k};
        var doc := docs[k];
        if doc == null {
          continue;
        }
        list, keys := list + [doc], keys + [k];
      }
      return list, keys, None;
    }

    /**
     * AddDoc: a document that already has an ID is rejected and nothing
     * is stored; otherwise a copy carrying the generated ID `uuid` is
     * stored under it and the ID returned. The caller's document keeps
     * its empty ID.
     */
    method AddDoc(doc: Doc, uuid: Result<string, string>) returns (id: string, err: Option<StoreError>)
      modifies this
      ensures doc.raw.id == old(doc.raw.id)
      ensures old(doc.raw.id) != "" ==> id == "" && err == Some(AlreadyExists("ID already set")) && docs == old(docs)
      ensures old(doc.raw.id) == "" && uuid.Err? ==> id == "" && err == Some(IDFailed(uuid.error)) && docs == old(docs)
      ensures old(doc.raw.id) == "" && uuid.Ok? ==>
                && err.None? && id == uuid.value
                && id in docs && docs[id] != null && fresh(docs[id]) && docs[id].ID() == id
                && docs == old(docs)[id := docs[id]]
    {
      if doc.ID() != "" {
        return "", Some(AlreadyExists("ID already set"));
      }
      if uuid.Err? {
        return "", Some(IDFailed(uuid.error));
      }
      id := uuid.value;
      var copy := doc.Copy(id);
      docs := docs[id := copy];
      return id, None;
    }

    /** RemoveDoc: deletes exactly `id`; NotFound, with nothing changed, for an unknown id. */
    method RemoveDoc(id: string) returns (err: Option<StoreError>)
      modifies this
      ensures err.Some? <==> id !in old(docs)
      ensures err.Some? ==> err.value == NotFound(id)
      ensures docs == old(docs) - {id}
    {
      if id !in docs {
        return Some(NotFound(id));
      }
      docs := docs - {id};
      return None;
    }

    /** Close: the store holds nothing to release. */
    function Close(): (r: Option<StoreError>)
      ensures r.None?
    {
      None
    }
  }
}

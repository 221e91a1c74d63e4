/**
 * The read and delete steps every router repeats: reject a malformed id with
 * 400 before touching the store, look the document up by its object id,
 * answer 404 when it is absent, and shape what was found into its response.
 * The routers supply their own messages and response shape.
 */
module Crud {
  import opened Common
  import opened DocumentStore

  /** `get_<entity>`: 400 for a malformed id, 404 for a missing document, else the shaped document. */
  function FindById<T, V>(docs: map<Id, T>, id: string, view: (Id, T) -> V, invalidMsg: string, missingMsg: string)
    : (r: Response<V>)
    ensures r.BadRequest? <==> !ValidId(id)
    ensures r.NotFound? <==> ValidId(id) && Oid(id) !in docs
    ensures r.Ok? <==> ValidId(id) && Oid(id) in docs
    ensures r.Ok? ==> r.value == view(Oid(id), docs[Oid(id)])
    ensures r.BadRequest? ==> r.msg == invalidMsg
    ensures r.NotFound? ==> r.msg == missingMsg
  {
    if !ValidId(id) then BadRequest(invalidMsg)
    else if Oid(id) !in docs then NotFound(missingMsg)
    else Ok(view(Oid(id), docs[Oid(id)]))
  }

  /** `get_all_<entity>`: every stored document, shaped, and nothing else. */
  function ListAll<T, V>(docs: map<Id, T>, view: (Id, T) -> V): (r: map<Id, V>)
    ensures r.Keys == docs.Keys
    ensures forall k :: k in r ==> r[k] == view(k, docs[k])
  {
    map k | k in docs :: view(k, docs[k])
  }

  /** The id a create returns reads back the document it created. */
  lemma FindAfterInsert<T, V>(docs: map<Id, T>, k: Id, doc: T, view: (Id, T) -> V, invalidMsg: string, missingMsg: string)
    requires IsOid(k)
    ensures FindById(docs[k := doc], k, view, invalidMsg, missingMsg) == Ok(view(k, doc))
  {
    CanonicalIdRoundTrip(k);
  }

  /** Listing and reading one by one agree: every listed id reads back its listed entry. */
  lemma ListAgreesWithFind<T, V>(docs: map<Id, T>, view: (Id, T) -> V, k: Id, invalidMsg: string, missingMsg: string)
    requires forall j :: j in docs ==> IsOid(j)
    requires k in ListAll(docs, view)
    ensures FindById(docs, k, view, invalidMsg, missingMsg) == Ok(ListAll(docs, view)[k])
  {
    CanonicalIdRoundTrip(k);
  }

  /** After a document is deleted, reading it by any spelling of its id is a 404. */
  lemma FindAfterDelete<T, V>(docs: map<Id, T>, id: string, view: (Id, T) -> V, invalidMsg: string, missingMsg: string)
    requires ValidId(id)
    ensures FindById(docs - {Oid(id)}, id, view, invalidMsg, missingMsg) == NotFound(missingMsg)
  {
  }

  /** `delete_<entity>`: 400 for a malformed id, 404 when `delete_one` removed nothing, else 204. */
  method DeleteById<T>(c: Collection<T>, id: string, invalidMsg: string, missingMsg: string) returns (r: Response<()>)
    requires c.Valid()
    modifies c
    ensures c.Valid()
    ensures !ValidId(id) ==> r == BadRequest(invalidMsg) && c.docs == old(c.docs)
    ensures ValidId(id) && Oid(id) !in old(c.docs) ==> r == NotFound(missingMsg) && c.docs == old(c.docs)
    ensures ValidId(id) && Oid(id) in old(c.docs) ==> r == Ok(()) && c.docs == old(c.docs) - {Oid(id)}
  {
    if !ValidId(id) {
      return BadRequest(invalidMsg);
    }
    var deletedCount := c.DeleteOne(Oid(id));
    if deletedCount == 0 {
      return NotFound(missingMsg);
    }
    r := Ok(());
  }
}

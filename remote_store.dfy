/**
 * The `Estudiantes` collection of the remote document store, as far as the
 * upload endpoint touches it: one DELETE of the whole collection and one
 * PATCH of the new roster.  The store is reached over the network, so its
 * answers are inputs; what a request does to the collection is the store's
 * documented behaviour, not code of this service.
 */
module RemoteStore {
  import opened Students

  /** What a request to the store yields: an HTTP status, or an exception
      raised by the HTTP client before any status arrived. */
  datatype Reply = Answered(status: int) | TransportError

  /** The store signals success with 200 or 204. */
  predicate Succeeded(reply: Reply)
  {
    reply.Answered? && (reply.status == 200 || reply.status == 204)
  }

  /** DELETE on the collection URL clears the collection when it succeeds. */
  function AfterDelete(store: Roster, reply: Reply): Roster
  {
    if Succeeded(reply) then map[] else store
  }

  /** PATCH merges the payload into the collection key by key when it succeeds. */
  function AfterPatch(store: Roster, data: Roster, reply: Reply): Roster
  {
    if Succeeded(reply) then store + data else store
  }

  /** A successful PATCH overwrites the keys it sends and leaves the others. */
  lemma PatchMerges(store: Roster, data: Roster, reply: Reply)
    requires Succeeded(reply)
    ensures AfterPatch(store, data, reply).Keys == store.Keys + data.Keys
    ensures forall k :: k in data ==> AfterPatch(store, data, reply)[k] == data[k]
    ensures forall k :: k in store && k !in data ==> AfterPatch(store, data, reply)[k] == store[k]
  {
  }

  /** Clearing and then patching leaves exactly the patched roster, whatever
      the collection held before. */
  lemma ClearThenPatch(store: Roster, data: Roster, deleteReply: Reply, patchReply: Reply)
    requires Succeeded(deleteReply) && Succeeded(patchReply)
    ensures AfterPatch(AfterDelete(store, deleteReply), data, patchReply) == data
  {
    assert map[] + data == data;
  }
}

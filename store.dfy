/**
 * The route handlers `GET` and `PUT` of one collection, over the state they share:
 * the module-level cache map (`blogsCache`, `eventsCache`, `newsCache`) and the
 * document in the content repository. The clock, the id generator, the hash the
 * repository gives a new document and transport failures are parameters.
 */
module Store {
  import opened Wrappers
  import opened Json
  import opened Collection

  class CollectionStore {
    /** Which collection this is. */
    const names: Collection
    /** The cache map; the handlers only ever use the one key `names.listKey`, so an entry or none. */
    var cache: Option<CacheEntry>
    /** The document in the content repository, if it exists. */
    var doc: Option<Document>
    /** Calls made to the content repository, and the hash sent with the last write. */
    ghost var remoteReads: nat
    ghost var remoteWrites: nat
    ghost var lastSent: Option<Sha>

    /** The repository never gives a document an empty hash. */
    ghost predicate Valid()
      reads this
    {
      doc.Some? ==> doc.value.sha != ""
    }

    constructor (names: Collection, doc: Option<Document>)
      requires doc.Some? ==> doc.value.sha != ""
      ensures Valid()
      ensures this.names == names && this.doc == doc && cache == None
      ensures remoteReads == 0 && remoteWrites == 0 && lastSent == None
    {
      this.names := names;
      this.doc := doc;
      cache := None;
      remoteReads, remoteWrites, lastSent := 0, 0, None;
    }

    /** A read of the document (`fetch` with `cache: 'no-store'`). */
    method ReadDocument(fault: bool) returns (reply: ReadReply)
      modifies this`remoteReads
      ensures reply == Fetch(doc, fault)
      ensures remoteReads == old(remoteReads) + 1
    {
      reply := Fetch(doc, fault);
      remoteReads := remoteReads + 1;
    }

    /** A conditional write of the whole list, carrying `sent` as the expected hash. */
    method WriteDocument(items: seq<Record>, sent: Option<Sha>, fault: bool, newSha: Sha) returns (ok: bool)
      requires Valid() && newSha != ""
      modifies this`doc, this`remoteWrites, this`lastSent
      ensures Valid()
      ensures ok <==> !fault && Accepts(old(doc), sent)
      ensures doc == if ok then Some(Document(items, newSha)) else old(doc)
      ensures remoteWrites == old(remoteWrites) + 1 && lastSent == sent
    {
      var w := Commit(doc, items, sent, fault, newSha);
      ok := w.Written?;
      if ok {
        doc := Some(w.doc);
      }
      remoteWrites := remoteWrites + 1;
      lastSent := sent;
    }

    /**
     * `GET /api/<collection>`: the cached list while it is younger than the TTL,
     * otherwise a fresh read; a missing document is an empty list and is not cached.
     * `now` is the clock at the cache check, `later` the clock when the result is cached.
     */
    method Get(env: map<string, string>, now: int, fault: bool, later: int) returns (reply: Reply<seq<Record>>)
      requires Valid()
      modifies this`cache, this`remoteReads
      ensures Valid() && doc == old(doc)
      ensures !Configured(env) ==> reply == Err(500) && unchanged(this)
      ensures Configured(env) && CacheHit(old(cache), now) ==>
        reply == Ok(old(cache).value.data) && unchanged(this)
      ensures Configured(env) && !CacheHit(old(cache), now) ==>
        && remoteReads == old(remoteReads) + 1
        && match Fetch(doc, fault)
           case ReadFailed => reply == Err(500) && cache == old(cache)
           case NotFound => reply == Ok([]) && cache == old(cache)
           case Found(items, _) => reply == Ok(items) && cache == Some(CacheEntry(items, later))
    {
      if !Configured(env) {
        return Err(500);
      }
      if cache.Some? && now - cache.value.timestamp < CacheTtl {
        return Ok(cache.value.data);
      }
      var fetched := ReadDocument(fault);
      if fetched.ReadFailed? {
        return Err(500);
      }
      if fetched.NotFound? {
        return Ok([]);
      }
      cache := Some(CacheEntry(fetched.items, later));
      reply := Ok(fetched.items);
    }

    /**
     * `PUT /api/<collection>`: check the configuration and the body without any remote
     * call, read the list and its hash, apply the action, write the whole list back
     * (with the hash only when one was read), and clear the cache once the write is
     * accepted. A failed read or a rejected write is answered with 500.
     */
    method Put(env: map<string, string>, body: Option<Value>, readFault: bool, writeFault: bool,
               freshId: string, createdAt: string, updatedAt: string, newSha: Sha)
      returns (reply: Reply<Record>)
      requires Valid()
      requires newSha != ""
      modifies this`cache, this`doc, this`remoteReads, this`remoteWrites, this`lastSent
      ensures Valid()
      ensures !Configured(env) ==> reply == Err(500) && unchanged(this)
      ensures var checked := CheckRequest(body, names);
        Configured(env) && checked.Refused? ==> reply == Err(checked.status) && unchanged(this)
      ensures var checked := CheckRequest(body, names);
        Configured(env) && checked.Accepted? ==>
          var fetched := Fetch(old(doc), readFault);
          var m := Mutate(checked.action, CurrentItems(fetched), checked.item, freshId, createdAt, updatedAt);
          && remoteReads == old(remoteReads) + 1
          && (fetched.ReadFailed? || m.Rejected? ==>
                && reply == (if fetched.ReadFailed? then Err(500) else Err(m.status))
                && doc == old(doc) && cache == old(cache)
                && remoteWrites == old(remoteWrites) && lastSent == old(lastSent))
          && (!fetched.ReadFailed? && m.Mutated? ==>
                && remoteWrites == old(remoteWrites) + 1
                && lastSent == (if old(doc).Some? then Some(old(doc).value.sha) else None)
                && m.affected.Some?
                && (writeFault ==> reply == Err(500) && doc == old(doc) && cache == old(cache))
                && (!writeFault ==>
                      && reply == Ok(m.affected.value)
                      && doc == Some(Document(m.items, newSha))
                      && cache == None))
    {
      if !Configured(env) {
        return Err(500);
      }
      var checked := CheckRequest(body, names);
      if checked.Refused? {
        return Err(checked.status);
      }

      var currentItems: seq<Record> := [];
      var sha: Option<Sha> := None;
      var fetched := ReadDocument(readFault);
      if fetched.Found? {
        sha := Some(fetched.sha);
        currentItems := fetched.items;
      } else if !fetched.NotFound? {
        return Err(500);
      }

      var m := Mutate(checked.action, currentItems, checked.item, freshId, createdAt, updatedAt);
      if m.Rejected? {
        return Err(m.status);
      }
      if checked.action == Str("update") {
        UpdateInPlace(currentItems, checked.item, freshId, createdAt, updatedAt);
      }

      var sent := if sha.Some? && sha.value != "" then sha else None;
      var ok := WriteDocument(m.items, sent, writeFault, newSha);
      if !ok {
        return Err(500);
      }
      cache := None;
      reply := Ok(m.affected.value);
    }
  }
}

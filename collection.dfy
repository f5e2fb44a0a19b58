/**
 * The versioned collection store behind `/api/blogs`, `/api/events` and `/api/news`:
 * one JSON document per collection holding an ordered list of records, read and
 * written through a content API that versions the document with a content hash (sha).
 * The three route files repeat the same logic under different names; this module
 * states it once, parameterised by a `Collection`.
 *
 * This module holds the pure parts of the handlers: environment and request checks,
 * the answer of the content API, the create/update mutation and the conditional write.
 */
module Collection {
  import opened Wrappers
  import opened Json

  /** The names one collection uses. */
  datatype Collection = Collection(
    listKey: string,   // the cache key, the document's key and the GET response key
    itemKey: string,   // the key of the record in a PUT body
    path: string)      // the document's path in the content repository

  const Blogs := Collection("posts", "blogPost", "content/blog-posts.json")
  const Events := Collection("events", "event", "content/events.json")
  const News := Collection("articles", "article", "content/news-articles.json")

  /** How long a cached list is served, in milliseconds. */
  const CacheTtl := 30 * 1000

  /** The environment variables every handler needs. */
  const RequiredEnv := ["GITHUB_OWNER", "GITHUB_REPO", "GITHUB_TOKEN"]

  /** Content hashes are opaque strings. */
  type Sha = string

  /** The stored document: the decoded record list and its content hash. */
  datatype Document = Document(items: seq<Record>, sha: Sha)

  /** A cache entry: the list and the clock reading taken when it was stored. */
  datatype CacheEntry = CacheEntry(data: seq<Record>, timestamp: int)

  // ---------------------------------------------------------------- environment

  /** An environment variable is missing when it is unset or empty (`!process.env[name]`). */
  predicate IsMissing(env: map<string, string>, name: string) {
    name !in env || env[name] == ""
  }

  /** `validateEnvVars`: the required names that are missing, in their fixed order. */
  function MissingEnv(env: map<string, string>, names: seq<string>): (missing: seq<string>)
    ensures forall n :: n in missing <==> n in names && IsMissing(env, n)
    ensures |missing| <= |names|
  {
    if names == [] then []
    else (if IsMissing(env, names[0]) then [names[0]] else []) + MissingEnv(env, names[1..])
  }

  /** Configuration is complete exactly when no required variable is missing. */
  predicate Configured(env: map<string, string>) {
    MissingEnv(env, RequiredEnv) == []
  }

  // ---------------------------------------------------------------- cache

  /** The cached list is served when there is an entry younger than the TTL. */
  predicate CacheHit(cache: Option<CacheEntry>, now: int) {
    cache.Some? && now - cache.value.timestamp < CacheTtl
  }

  // ---------------------------------------------------------------- reading the document

  /** What the content API answers to a read of the document. */
  datatype ReadReply = Found(items: seq<Record>, sha: Sha) | NotFound | ReadFailed

  /**
   * The content API's answer: the document when it exists, 404 when it does not,
   * and some other failure (rate limit, authorisation, network) when `fault` holds.
   */
  function Fetch(doc: Option<Document>, fault: bool): (reply: ReadReply)
    ensures reply.Found? <==> !fault && doc.Some?
    ensures reply.NotFound? <==> !fault && doc.None?
    ensures reply.Found? ==> reply.items == doc.value.items && reply.sha == doc.value.sha
  {
    if fault then ReadFailed
    else if doc.None? then NotFound
    else Found(doc.value.items, doc.value.sha)
  }

  /** The list a PUT starts from: the stored list, or the empty list when there is no document. */
  function CurrentItems(reply: ReadReply): seq<Record> {
    if reply.Found? then reply.items else []
  }

  /** `if (sha) updatePayload.sha = sha`: the hash sent with the write, when one was read and is non-empty. */
  function ShaToSend(reply: ReadReply): (sent: Option<Sha>)
    ensures sent.Some? <==> reply.Found? && reply.sha != ""
    ensures sent.Some? ==> sent.value == reply.sha
  {
    if reply.Found? && reply.sha != "" then Some(reply.sha) else None
  }

  // ---------------------------------------------------------------- writing the document

  /**
   * The content API's compare-and-swap rule (an assumption about the repository, not code
   * of this system): a write without a hash creates the document and is accepted only
   * when there is none; a write with a hash is accepted only when it is the current hash.
   */
  predicate Accepts(doc: Option<Document>, sent: Option<Sha>) {
    if doc.None? then sent.None? else sent == Some(doc.value.sha)
  }

  /** The outcome of a write: the new document, or a rejection (any non-2xx answer). */
  datatype WriteReply = Written(doc: Document) | WriteRejected

  /** A write of `items` carrying `sent`; the repository gives the new document the hash `newSha`. */
  function Commit(doc: Option<Document>, items: seq<Record>, sent: Option<Sha>, fault: bool, newSha: Sha): (w: WriteReply)
    ensures w.Written? <==> !fault && Accepts(doc, sent)
    ensures w.Written? ==> w.doc.items == items && w.doc.sha == newSha
  {
    if !fault && Accepts(doc, sent) then Written(Document(items, newSha)) else WriteRejected
  }

  // ---------------------------------------------------------------- the request body

  /**
   * The checks a PUT makes before touching the repository. `body` is `None` when the
   * body is not valid JSON. On success it gives the action and the record.
   */
  datatype Checked = Accepted(action: Value, item: Record) | Refused(status: int)

  function CheckRequest(body: Option<Value>, c: Collection): (r: Checked)
    ensures r.Refused? ==> (r.status == 500 <==> body == Some(Null)) && (r.status == 400 || r.status == 500)
    ensures r.Accepted? <==>
      body.Some? && body.value.Obj? &&
      Truthy(Get(body.value.fields, "action")) &&
      Get(body.value.fields, c.itemKey).Some? && body.value.fields[c.itemKey].Obj? &&
      HasRequiredFields(body.value.fields[c.itemKey].fields)
    ensures r.Accepted? ==>
      r.action == body.value.fields["action"] && r.item == body.value.fields[c.itemKey].fields
  {
    match body
    case None => Refused(400)                          // request.json() threw
    case Some(Null) => Refused(500)                    // destructuring `null` throws
    case Some(Obj(fields)) =>
      var action := Get(fields, "action");
      var item := Get(fields, c.itemKey);
      if !Truthy(action) || !Truthy(item) then Refused(400)
      else if !item.value.Obj? then Refused(400)       // a string, number or array has no `title`
      else if !HasRequiredFields(item.value.fields) then Refused(400)
      else Accepted(action.value, item.value.fields)
    case Some(_) => Refused(400)                       // a primitive or array has no `action`
  }

  /** `title`, `content` and `slug` are all truthy. */
  predicate HasRequiredFields(item: Record) {
    Truthy(Get(item, "title")) && Truthy(Get(item, "content")) && Truthy(Get(item, "slug"))
  }

  // ---------------------------------------------------------------- matching records

  /** The update matcher: `post.id === item.id || post.slug === item.slug`. */
  predicate Matches(rec: Record, item: Record) {
    StrictEquals(Get(rec, "id"), Get(item, "id")) || StrictEquals(Get(rec, "slug"), Get(item, "slug"))
  }

  /** `findIndex` with the update matcher: the first matching position, or -1. */
  function FindIndex(items: seq<Record>, item: Record): (r: int)
    ensures -1 <= r < |items|
    ensures r == -1 <==> forall j :: 0 <= j < |items| ==> !Matches(items[j], item)
    ensures 0 <= r ==> Matches(items[r], item) && forall j :: 0 <= j < r ==> !Matches(items[j], item)
  {
    if items == [] then -1
    else if Matches(items[0], item) then 0
    else
      var k := FindIndex(items[1..], item);
      if k == -1 then -1 else k + 1
  }

  /** `find` with the update matcher: the first matching record, if any. */
  function Find(items: seq<Record>, item: Record): Option<Record> {
    var i := FindIndex(items, item);
    if i == -1 then None else Some(items[i])
  }

  /** The create check: some stored record has `slug === item.slug`. */
  predicate SlugTaken(items: seq<Record>, slug: Option<Value>) {
    exists j :: 0 <= j < |items| && StrictEquals(Get(items[j], "slug"), slug)
  }

  // ---------------------------------------------------------------- the mutation

  /** `{...item, id: item.id || generateId(), createdAt, updatedAt}`. */
  function NewRecord(item: Record, freshId: string, createdAt: string, updatedAt: string): (r: Record)
    ensures r.Keys == item.Keys + {"id", "createdAt", "updatedAt"}
    ensures r["id"] == (if Truthy(Get(item, "id")) then item["id"] else Str(freshId))
    ensures r["createdAt"] == Str(createdAt) && r["updatedAt"] == Str(updatedAt)
    ensures forall k :: k in item && k !in {"id", "createdAt", "updatedAt"} ==> r[k] == item[k]
  {
    var id := if Truthy(Get(item, "id")) then item["id"] else Str(freshId);
    item + map["id" := id, "createdAt" := Str(createdAt), "updatedAt" := Str(updatedAt)]
  }

  /** `{...existing, ...item, updatedAt}`: a shallow merge, later sources winning. */
  function Merge(existing: Record, item: Record, updatedAt: string): (r: Record)
    ensures r.Keys == existing.Keys + item.Keys + {"updatedAt"}
    ensures r["updatedAt"] == Str(updatedAt)
    ensures forall k :: k in item && k != "updatedAt" ==> r[k] == item[k]
    ensures forall k :: k in existing && k !in item && k != "updatedAt" ==> r[k] == existing[k]
  {
    existing + item + map["updatedAt" := Str(updatedAt)]
  }

  /** The result of applying an action to the stored list: an error status, or the new list and the record to return. */
  datatype Mutation = Rejected(status: int) | Mutated(items: seq<Record>, affected: Option<Record>)

  /**
   * The mutation in PUT: create (409 on a taken slug, else prepend), update (404 when
   * nothing matches, else merge in place) or any other action (400).
   * The record returned on update is found again in the new list, as the handler does,
   * and it is always there: the merged record still matches the request item.
   */
  function Mutate(action: Value, current: seq<Record>, item: Record, freshId: string,
                  createdAt: string, updatedAt: string): (m: Mutation)
    ensures m.Rejected? ==> m.status == (if action == Str("create") then 409
                                         else if action == Str("update") then 404 else 400)
    ensures m.Rejected? <==>
      || (action == Str("create") && SlugTaken(current, Get(item, "slug")))
      || (action == Str("update") && FindIndex(current, item) == -1)
      || (action != Str("create") && action != Str("update"))
    ensures m.Mutated? ==> m.affected.Some? && m.affected.value in m.items
    ensures m.Mutated? ==> |m.items| == |current| + (if action == Str("create") then 1 else 0)
  {
    if action == Str("create") then
      if SlugTaken(current, Get(item, "slug")) then Rejected(409)
      else
        var updated := [NewRecord(item, freshId, createdAt, updatedAt)] + current;
        Mutated(updated, Some(updated[0]))
    else if action == Str("update") then
      var i := FindIndex(current, item);
      if i == -1 then Rejected(404)
      else
        var updated := current[i := Merge(current[i], item, updatedAt)];
        MergeStillMatches(current[i], item, updatedAt);
        assert Matches(updated[i], item);
        Mutated(updated, Find(updated, item))
    else Rejected(400)
  }

  // ---------------------------------------------------------------- properties of the mutation

  /**
   * Create: a taken slug gives 409 and nothing else; otherwise the new record is
   * prepended, the old records follow in their order, and it is the record returned.
   */
  lemma CreatePrepends(current: seq<Record>, item: Record, freshId: string, createdAt: string, updatedAt: string)
    ensures var m := Mutate(Str("create"), current, item, freshId, createdAt, updatedAt);
      && (m.Rejected? <==> SlugTaken(current, Get(item, "slug")))
      && (m.Rejected? ==> m.status == 409)
      && (m.Mutated? ==>
            && |m.items| == |current| + 1
            && m.items[1..] == current
            && m.items[0] == NewRecord(item, freshId, createdAt, updatedAt)
            && m.affected == Some(m.items[0]))
  {
  }

  /** Any action other than `"create"` and `"update"` is refused with 400 after the read. */
  lemma OtherActionRefused(action: Value, current: seq<Record>, item: Record, freshId: string, createdAt: string, updatedAt: string)
    requires action != Str("create") && action != Str("update")
    ensures Mutate(action, current, item, freshId, createdAt, updatedAt) == Rejected(400)
  {
  }

  /**
   * A merged record still matches the record it was merged with: every field that
   * matched is either overwritten by the supplied value or was absent on both sides.
   */
  lemma MergeStillMatches(existing: Record, item: Record, updatedAt: string)
    requires Matches(existing, item)
    ensures Matches(Merge(existing, item, updatedAt), item)
  {
    var merged := Merge(existing, item, updatedAt);
    if StrictEquals(Get(existing, "id"), Get(item, "id")) {
      if "id" in item {
        assert Get(merged, "id") == Get(item, "id");
      } else {
        assert "id" !in merged;
      }
    } else {
      if "slug" in item {
        assert Get(merged, "slug") == Get(item, "slug");
      } else {
        assert "slug" !in merged;
      }
    }
  }

  /**
   * Update: no match gives 404; otherwise only the first matching position changes,
   * to the existing record overlaid by the supplied fields and a fresh `updatedAt`,
   * the length is kept, and the record returned is exactly the merged one.
   */
  lemma {:induction false} UpdateInPlace(current: seq<Record>, item: Record, freshId: string, createdAt: string, updatedAt: string)
    ensures var m := Mutate(Str("update"), current, item, freshId, createdAt, updatedAt);
      var i := FindIndex(current, item);
      && (m.Rejected? <==> forall j :: 0 <= j < |current| ==> !Matches(current[j], item))
      && (m.Rejected? ==> m.status == 404)
      && (m.Mutated? ==>
            && 0 <= i < |current|
            && |m.items| == |current|
            && (forall j :: 0 <= j < |current| && j != i ==> m.items[j] == current[j])
            && m.items[i] == Merge(current[i], item, updatedAt)
            && m.affected == Some(m.items[i]))
  {
    var i := FindIndex(current, item);
    if i != -1 {
      var updated := current[i := Merge(current[i], item, updatedAt)];
      MergeStillMatches(current[i], item, updatedAt);
      var k := FindIndex(updated, item);
      assert k == i by {
        assert Matches(updated[i], item);
        assert forall j :: 0 <= j < i ==> updated[j] == current[j];
      }
    }
  }

  /** No two records of the list carry strictly equal slugs (two absent slugs count as equal). */
  predicate UniqueSlugs(items: seq<Record>) {
    forall i, j :: 0 <= i < j < |items| ==> !StrictEquals(Get(items[i], "slug"), Get(items[j], "slug"))
  }

  /** Create keeps slugs unique: the new record's slug is not among the stored ones. */
  lemma CreateKeepsSlugsUnique(current: seq<Record>, item: Record, freshId: string, createdAt: string, updatedAt: string)
    requires UniqueSlugs(current)
    ensures var m := Mutate(Str("create"), current, item, freshId, createdAt, updatedAt);
      m.Mutated? ==> UniqueSlugs(m.items)
  {
    var m := Mutate(Str("create"), current, item, freshId, createdAt, updatedAt);
    if m.Mutated? {
      var rec := NewRecord(item, freshId, createdAt, updatedAt);
      assert Get(rec, "slug") == Get(item, "slug");
      forall i, j | 0 <= i < j < |m.items|
        ensures !StrictEquals(Get(m.items[i], "slug"), Get(m.items[j], "slug"))
      {
        if i == 0 {
          assert m.items[j] == current[j - 1];
          assert !StrictEquals(Get(current[j - 1], "slug"), Get(item, "slug"));
        } else {
          assert m.items[i] == current[i - 1] && m.items[j] == current[j - 1];
        }
      }
    }
  }

  /**
   * A second create with the same (primitive) slug, applied to the list the first
   * create produced, is refused with 409 and leaves that list as it is.
   */
  lemma CreateTwiceConflicts(current: seq<Record>, item: Record, again: Record, freshId: string,
                             createdAt: string, updatedAt: string)
    requires "slug" in item && IsPrimitive(item["slug"])
    requires Get(again, "slug") == Get(item, "slug")
    ensures var m := Mutate(Str("create"), current, item, freshId, createdAt, updatedAt);
      m.Mutated? ==> Mutate(Str("create"), m.items, again, freshId, createdAt, updatedAt) == Rejected(409)
  {
    var m := Mutate(Str("create"), current, item, freshId, createdAt, updatedAt);
    if m.Mutated? {
      assert Get(m.items[0], "slug") == Get(item, "slug");
      assert StrictEquals(Get(m.items[0], "slug"), Get(again, "slug"));
    }
  }

  /**
   * Update does not re-check slugs: when an update is located at one record and carries
   * the (primitive) slug of another, the update goes through and the two records end
   * up with the same slug. The other record comes later in the list, since a record
   * with the item's slug already matches.
   */
  lemma UpdateDuplicatesSlug(current: seq<Record>, item: Record, j: int, freshId: string,
                             createdAt: string, updatedAt: string)
    requires "slug" in item && IsPrimitive(item["slug"])
    requires FindIndex(current, item) != -1
    requires 0 <= j < |current| && j != FindIndex(current, item)
    requires Get(current[j], "slug") == Get(item, "slug")
    ensures var m := Mutate(Str("update"), current, item, freshId, createdAt, updatedAt);
      m.Mutated? && !UniqueSlugs(m.items)
  {
    var i := FindIndex(current, item);
    var m := Mutate(Str("update"), current, item, freshId, createdAt, updatedAt);
    var merged := Merge(current[i], item, updatedAt);
    assert m.items == current[i := merged];
    assert Get(merged, "slug") == Get(item, "slug") by {
      assert "slug" != "updatedAt" by { assert "slug"[0] != "updatedAt"[0]; }
    }
    assert i < j by {
      assert Matches(current[j], item);  // the slug matches, so the first match comes no later
    }
    assert StrictEquals(Get(m.items[i], "slug"), Get(m.items[j], "slug"));
  }

  /**
   * An instance of `UpdateDuplicatesSlug` on a list whose slugs were distinct before:
   * when the first record is located by its id and the
   * update carries the slug of the second record, the two end up with the same slug,
   * although the list had distinct slugs before.
   */
  lemma UpdateCanDuplicateSlug(b: Record, a: Record, item: Record, freshId: string,
                               createdAt: string, updatedAt: string)
    requires "id" in b && "id" in item && IsPrimitive(item["id"]) && b["id"] == item["id"]
    requires "slug" in a && "slug" in item && IsPrimitive(item["slug"]) && a["slug"] == item["slug"]
    requires UniqueSlugs([b, a])
    ensures var m := Mutate(Str("update"), [b, a], item, freshId, createdAt, updatedAt);
      m.Mutated? && !UniqueSlugs(m.items)
  {
    assert Matches(b, item) by {
      assert StrictEquals(Get(b, "id"), Get(item, "id"));
    }
    assert FindIndex([b, a], item) == 0;
    var m := Mutate(Str("update"), [b, a], item, freshId, createdAt, updatedAt);
    var merged := Merge(b, item, updatedAt);
    assert m.items == [merged, a];
    assert Get(merged, "slug") == Get(item, "slug") by {
      assert "slug" != "updatedAt" by { assert "slug"[0] != "updatedAt"[0]; }
    }
    assert StrictEquals(Get(m.items[0], "slug"), Get(m.items[1], "slug"));
  }

  // ---------------------------------------------------------------- concurrent writers

  /**
   * Two handlers that read the same state both send the hash they read: once the
   * first write is accepted, the second is rejected (the repository gives every
   * accepted write a new, non-empty hash).
   */
  lemma SecondWriterRejected(doc: Option<Document>, first: seq<Record>, second: seq<Record>,
                             newSha: Sha, laterSha: Sha)
    requires doc.Some? ==> doc.value.sha != "" && newSha != doc.value.sha
    ensures var sent := ShaToSend(Fetch(doc, false));
      var w := Commit(doc, first, sent, false, newSha);
      && w.Written?
      && Commit(Some(w.doc), second, sent, false, laterSha) == WriteRejected
  {
  }
}

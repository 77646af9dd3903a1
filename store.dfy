/** The dictionary `_docs` of `InMemorySearchService` and the changes the
    service makes to it, as functions of the old dictionary. */
module Store {
  import opened Outcomes
  import opened Records

  type Docs = map<string, DocumentRecord>

  /** What holds of the dictionary and of its iteration order `order`
      between calls: every key once, in insertion order; each record filed
      under its own id; its exclusion fields moving together. */
  ghost predicate StoreInvariant(docs: Docs, order: seq<string>)
  {
    && (forall i, j :: 0 <= i < j < |order| ==> order[i] != order[j])
    && (forall id :: id in docs <==> id in order)
    && (forall id :: id in docs ==> docs[id].docId == id && ExclusionConsistent(docs[id]))
  }

  /** Some occurrence of `x` in `keys` stands before some occurrence of `y`. */
  ghost predicate Before(keys: seq<string>, x: string, y: string)
  {
    exists a, b :: 0 <= a < b < |keys| && keys[a] == x && keys[b] == y
  }

  /** Order among keys survives adding a key at the end. */
  lemma BeforeExtend(keys: seq<string>, k: string, x: string, y: string)
    requires Before(keys, x, y)
    ensures Before(keys + [k], x, y)
  {
    var a, b :| 0 <= a < b < |keys| && keys[a] == x && keys[b] == y;
    assert (keys + [k])[a] == x && (keys + [k])[b] == y;
  }

  /** `_require_admin`: only an admin may go on. */
  function RequireAdmin(isAdmin: bool): (o: Outcome)
    ensures o.Done? <==> isAdmin
    ensures o.Failed? ==> o.error == PermissionDenied
  {
    if !isAdmin then Failed(PermissionDenied) else Done
  }

  /** `_require_doc`: the record under `docId`, or `KeyError` if there is none. */
  function RequireDoc(docs: Docs, docId: string): (r: Result<DocumentRecord>)
    ensures r.Success? <==> docId in docs
    ensures r.Success? ==> r.value == docs[docId]
    ensures r.Failure? ==> r.error == NotFound(docId)
  {
    if docId !in docs then Failure(NotFound(docId)) else Success(docs[docId])
  }

  /** The dictionary after `add_or_update_document`. */
  function UpsertDocs(docs: Docs, docId: string, title: string, content: string, thumbnailUrl: string,
                      source: string, pageOrSlide: string, isDeleted: bool): Docs
  {
    var current := if docId in docs then Some(docs[docId]) else None;
    docs[docId := Upserted(current, docId, title, content, thumbnailUrl, source, pageOrSlide, isDeleted)]
  }

  /** The iteration order after `add_or_update_document`: a new key goes
      last, an existing key keeps its place. */
  function UpsertOrder(docs: Docs, order: seq<string>, docId: string): seq<string>
  {
    if docId in docs then order else order + [docId]
  }

  /** `exclude_document`: its outcome and the dictionary afterwards. */
  function ExcludeStep(docs: Docs, docId: string, actor: string, isAdmin: bool, now: Timestamp): (Outcome, Docs)
  {
    var admin := RequireAdmin(isAdmin);
    if admin.Failed? then (admin, docs)
    else
      match RequireDoc(docs, docId)
      case Failure(e) => (Failed(e), docs)
      case Success(doc) => (Done, docs[docId := Excluded(doc, now, actor)])
  }

  /** `include_document`: its outcome and the dictionary afterwards. */
  function IncludeStep(docs: Docs, docId: string, isAdmin: bool): (Outcome, Docs)
  {
    var admin := RequireAdmin(isAdmin);
    if admin.Failed? then (admin, docs)
    else
      match RequireDoc(docs, docId)
      case Failure(e) => (Failed(e), docs)
      case Success(doc) => (Done, docs[docId := Included(doc)])
  }

  /** Upsert stores the supplied id, content and metadata under `docId`,
      carries over the exclusion state of the record it replaces (none for a
      new id), leaves every other entry alone and keeps the invariant. */
  lemma UpsertEffect(docs: Docs, order: seq<string>, docId: string, title: string, content: string,
                     thumbnailUrl: string, source: string, pageOrSlide: string, isDeleted: bool)
    requires StoreInvariant(docs, order)
    ensures var docs' := UpsertDocs(docs, docId, title, content, thumbnailUrl, source, pageOrSlide, isDeleted);
      && docs'.Keys == docs.Keys + {docId}
      && (forall id :: id in docs && id != docId ==> docs'[id] == docs[id])
      && var r := docs'[docId];
      && r.docId == docId && r.title == title && r.content == content && r.thumbnailUrl == thumbnailUrl
      && r.source == source && r.pageOrSlide == pageOrSlide && r.isDeleted == isDeleted
      && (if docId in docs then
            r.isExcluded == docs[docId].isExcluded && r.excludedAt == docs[docId].excludedAt
            && r.excludedBy == docs[docId].excludedBy
          else !r.isExcluded && r.excludedAt == None && r.excludedBy == None)
      && StoreInvariant(docs', UpsertOrder(docs, order, docId))
  {
    var docs' := UpsertDocs(docs, docId, title, content, thumbnailUrl, source, pageOrSlide, isDeleted);
    var order' := UpsertOrder(docs, order, docId);
    forall i, j | 0 <= i < j < |order'|
      ensures order'[i] != order'[j]
    {
      if docId !in docs && j == |order| {
        assert order[i] in docs;
      }
    }
  }

  /** Without the admin claim, exclude and include fail with
      `PermissionDenied` before looking the id up, even for an absent id,
      and change nothing. */
  lemma NonAdminIsRefused(docs: Docs, docId: string, actor: string, now: Timestamp)
    ensures ExcludeStep(docs, docId, actor, false, now) == (Failed(PermissionDenied), docs)
    ensures IncludeStep(docs, docId, false) == (Failed(PermissionDenied), docs)
  {
  }

  /** An admin call on an absent id fails with `NotFound` and changes nothing. */
  lemma AbsentIdIsNotFound(docs: Docs, docId: string, actor: string, now: Timestamp)
    requires docId !in docs
    ensures ExcludeStep(docs, docId, actor, true, now) == (Failed(NotFound(docId)), docs)
    ensures IncludeStep(docs, docId, true) == (Failed(NotFound(docId)), docs)
  {
  }

  /** An admin exclude of a present id succeeds, marks that record excluded
      at `now` by `actor`, changes no other field or entry and keeps the
      invariant. */
  lemma AdminExcludeChangesOnlyExclusion(docs: Docs, order: seq<string>, docId: string, actor: string,
                                         now: Timestamp)
    requires StoreInvariant(docs, order) && docId in docs
    ensures var (o, docs') := ExcludeStep(docs, docId, actor, true, now);
      && o == Done && docs'.Keys == docs.Keys
      && (forall id :: id in docs && id != docId ==> docs'[id] == docs[id])
      && docs'[docId] == docs[docId].(isExcluded := true, excludedAt := Some(now), excludedBy := Some(actor))
      && StoreInvariant(docs', order)
  {
    ExcludeChanges(docs[docId], now, actor);
  }

  /** An admin include of a present id succeeds, clears that record's three
      exclusion fields, changes no other field or entry and keeps the
      invariant. */
  lemma AdminIncludeChangesOnlyExclusion(docs: Docs, order: seq<string>, docId: string)
    requires StoreInvariant(docs, order) && docId in docs
    ensures var (o, docs') := IncludeStep(docs, docId, true);
      && o == Done && docs'.Keys == docs.Keys
      && (forall id :: id in docs && id != docId ==> docs'[id] == docs[id])
      && docs'[docId] == docs[docId].(isExcluded := false, excludedAt := None, excludedBy := None)
      && StoreInvariant(docs', order)
  {
    IncludeChanges(docs[docId]);
  }

  /** Excluding twice is excluding once with the later call's time and
      actor; including twice is including once. */
  lemma ExcludeIncludeIdempotent(docs: Docs, docId: string, actor: string, actor': string,
                                 now: Timestamp, later: Timestamp)
    ensures var once := ExcludeStep(docs, docId, actor, true, now);
      ExcludeStep(once.1, docId, actor', true, later) == (once.0, ExcludeStep(docs, docId, actor', true, later).1)
    ensures var once := IncludeStep(docs, docId, true);
      IncludeStep(once.1, docId, true) == once
  {
    if docId in docs {
      var r := docs[docId];
      assert Excluded(Excluded(r, now, actor), later, actor') == Excluded(r, later, actor');
      assert docs[docId := Excluded(r, now, actor)][docId := Excluded(r, later, actor')]
          == docs[docId := Excluded(r, later, actor')];
      assert Included(Included(r)) == Included(r);
      assert docs[docId := Included(r)][docId := Included(r)] == docs[docId := Included(r)];
    }
  }

  /** Including after excluding leaves the store as including alone would;
      it gives back the store it started from exactly when the record was
      absent or not excluded. */
  lemma IncludeAfterExclude(docs: Docs, order: seq<string>, docId: string, actor: string, now: Timestamp)
    requires StoreInvariant(docs, order)
    ensures IncludeStep(ExcludeStep(docs, docId, actor, true, now).1, docId, true) == IncludeStep(docs, docId, true)
    ensures IncludeStep(ExcludeStep(docs, docId, actor, true, now).1, docId, true).1 == docs
        <==> docId !in docs || !docs[docId].isExcluded
  {
    if docId in docs {
      var r := docs[docId];
      assert Included(Excluded(r, now, actor)) == Included(r);
      assert docs[docId := Excluded(r, now, actor)][docId := Included(r)] == docs[docId := Included(r)];
      if !r.isExcluded {
        IncludeUndoesExclude(r, now, actor);
        assert docs[docId := r] == docs;
      } else {
        assert docs[docId := Included(r)][docId] != docs[docId];
      }
    }
  }
}

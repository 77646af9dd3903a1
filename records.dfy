/** Optional values and the two errors the service raises. */
module Outcomes {

  datatype Option<T> = None | Some(value: T)

  /** `PermissionError` ("admin role required") and `KeyError`
      ("document not found: <doc_id>"). */
  datatype ServiceError = PermissionDenied | NotFound(docId: string)

  /** The end of an operation that returns nothing: it completed, or it
      raised the error. */
  datatype Outcome = Done | Failed(error: ServiceError)

  /** The end of an operation that returns a value. */
  datatype Result<T> = Success(value: T) | Failure(error: ServiceError)

  /** A non-empty sequence is its front followed by its last element. */
  lemma SplitLast<T>(s: seq<T>)
    requires s != []
    ensures s == s[..|s| - 1] + [s[|s| - 1]]
  {
  }

  /** An element other than the last one lies in the front. */
  lemma InFront<T>(s: seq<T>, x: T)
    requires x in s && x != s[|s| - 1]
    ensures x in s[..|s| - 1]
  {
    var a :| 0 <= a < |s| && s[a] == x;
    assert s[..|s| - 1][a] == x;
  }
}

/** `DocumentRecord` and the changes made to one record. */
module Records {
  import opened Outcomes

  /** A point in time, as ticks since `datetime.min` (UTC); tick 0 is the
      value `list_excluded_documents` puts in for a missing timestamp. */
  type Timestamp = nat

  datatype DocumentRecord = DocumentRecord(
    docId: string,
    title: string,
    content: string,
    thumbnailUrl: string,
    source: string,
    pageOrSlide: string,
    isDeleted: bool,
    isExcluded: bool,
    excludedAt: Option<Timestamp>,
    excludedBy: Option<string>)

  /** The three exclusion fields move together: a record is excluded
      exactly when it carries both a timestamp and an actor. */
  predicate ExclusionConsistent(r: DocumentRecord)
  {
    (r.isExcluded <==> r.excludedAt.Some?) && (r.isExcluded <==> r.excludedBy.Some?)
  }

  /** Search skips deleted and excluded records. */
  predicate Visible(r: DocumentRecord)
  {
    !r.isDeleted && !r.isExcluded
  }

  /** The record `add_or_update_document` stores: the supplied id, content
      and metadata, and the exclusion state of the record it replaces (none
      for a new id). */
  function Upserted(current: Option<DocumentRecord>, docId: string, title: string, content: string,
                    thumbnailUrl: string, source: string, pageOrSlide: string, isDeleted: bool): (r: DocumentRecord)
    ensures current.Some? ==>
      (r.isExcluded == current.value.isExcluded &&
       r.excludedAt == current.value.excludedAt && r.excludedBy == current.value.excludedBy)
    ensures current.None? ==> !r.isExcluded && r.excludedAt.None? && r.excludedBy.None?
    ensures (current.None? || ExclusionConsistent(current.value)) ==> ExclusionConsistent(r)
  {
    var excluded := if current.Some? then current.value.isExcluded else false;
    var excludedAt := if current.Some? then current.value.excludedAt else None;
    var excludedBy := if current.Some? then current.value.excludedBy else None;
    DocumentRecord(docId, title, content, thumbnailUrl, source, pageOrSlide, isDeleted,
                   excluded, excludedAt, excludedBy)
  }

  /** What `exclude_document` does to the record. */
  function Excluded(r: DocumentRecord, now: Timestamp, actor: string): DocumentRecord
  {
    r.(isExcluded := true, excludedAt := Some(now), excludedBy := Some(actor))
  }

  /** What `include_document` does to the record. */
  function Included(r: DocumentRecord): DocumentRecord
  {
    r.(isExcluded := false, excludedAt := None, excludedBy := None)
  }

  /** Excluding marks the record excluded at `now` by `actor`, touches
      nothing else of the record, and hides it. */
  lemma ExcludeChanges(r: DocumentRecord, now: Timestamp, actor: string)
    ensures Excluded(r, now, actor).isExcluded
    ensures Excluded(r, now, actor).excludedAt == Some(now) && Excluded(r, now, actor).excludedBy == Some(actor)
    ensures ExclusionConsistent(Excluded(r, now, actor)) && !Visible(Excluded(r, now, actor))
    ensures Excluded(r, now, actor).(isExcluded := r.isExcluded, excludedAt := r.excludedAt, excludedBy := r.excludedBy) == r
  {
  }

  /** Including clears the three exclusion fields, touches nothing else
      of the record, and makes it visible unless it is deleted. */
  lemma IncludeChanges(r: DocumentRecord)
    ensures !Included(r).isExcluded
    ensures Included(r).excludedAt == None && Included(r).excludedBy == None
    ensures ExclusionConsistent(Included(r)) && (Visible(Included(r)) <==> !r.isDeleted)
    ensures Included(r).(isExcluded := r.isExcluded, excludedAt := r.excludedAt, excludedBy := r.excludedBy) == r
  {
  }

  /** Including a record that was excluded from a consistent, included
      state gives the original record back. */
  lemma IncludeUndoesExclude(r: DocumentRecord, now: Timestamp, actor: string)
    requires ExclusionConsistent(r) && !r.isExcluded
    ensures Included(Excluded(r, now, actor)) == r
  {
  }
}

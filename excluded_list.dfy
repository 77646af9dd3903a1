/** `list_excluded_documents`: the excluded records, newest exclusion
    first, each projected to the row an administrator sees. */
module ExcludedListing {
  import opened Outcomes
  import opened Records
  import opened Store

  /** One row of the listing. The timestamp is kept as a value; its
      `isoformat()` rendering is not modelled. */
  datatype ExcludedRow = ExcludedRow(
    docId: string,
    title: string,
    source: string,
    excludedAt: Option<Timestamp>,
    excludedBy: Option<string>,
    isDeleted: bool)

  /** The row for one record. */
  function Row(r: DocumentRecord): ExcludedRow
  {
    ExcludedRow(r.docId, r.title, r.source, r.excludedAt, r.excludedBy, r.isDeleted)
  }

  /** The sort key: the exclusion time, or `datetime.min` (tick 0) when
      there is none. */
  function SortKey(r: DocumentRecord): nat
  {
    match r.excludedAt
    case Some(t) => t
    case None => 0
  }

  /** The excluded records among `keys`, in the order of `keys`. */
  function ExcludedAmong(docs: Docs, keys: seq<string>): seq<DocumentRecord>
    requires forall id :: id in keys ==> id in docs
  {
    if keys == [] then []
    else
      var rest := ExcludedAmong(docs, keys[..|keys| - 1]);
      var last := docs[keys[|keys| - 1]];
      if last.isExcluded then rest + [last] else rest
  }

  /** Newest first: keys never increase along the sequence. */
  ghost predicate NewestFirstOrder(s: seq<DocumentRecord>)
  {
    forall i, j :: 0 <= i < j < |s| ==> SortKey(s[i]) >= SortKey(s[j])
  }

  /** `x` placed into newest-first `s` after every record whose key is not
      smaller than its own. */
  function InsertByKey(s: seq<DocumentRecord>, x: DocumentRecord): seq<DocumentRecord>
  {
    if s == [] then [x]
    else if SortKey(s[0]) < SortKey(x) then [x] + s
    else [s[0]] + InsertByKey(s[1..], x)
  }

  /** `sort(key=..., reverse=True)`: a stable sort, newest exclusion first. */
  function NewestFirst(s: seq<DocumentRecord>): seq<DocumentRecord>
  {
    if s == [] then [] else InsertByKey(NewestFirst(s[..|s| - 1]), s[|s| - 1])
  }

  /** The records of `s` with sort key `k`, in their order in `s`. */
  function WithKey(s: seq<DocumentRecord>, k: nat): seq<DocumentRecord>
  {
    if s == [] then []
    else (if SortKey(s[0]) == k then [s[0]] else []) + WithKey(s[1..], k)
  }

  /** The listing `list_excluded_documents(is_admin)` returns. */
  function ListExcluded(docs: Docs, order: seq<string>, isAdmin: bool): Result<seq<ExcludedRow>>
    requires forall id :: id in order ==> id in docs
  {
    if !isAdmin then Failure(PermissionDenied)
    else
      var sorted := NewestFirst(ExcludedAmong(docs, order));
      Success(seq(|sorted|, i requires 0 <= i < |sorted| => Row(sorted[i])))
  }

  /** No record of `s` has a key above `k`. */
  ghost predicate KeysAtMost(s: seq<DocumentRecord>, k: nat)
  {
    forall j :: 0 <= j < |s| ==> SortKey(s[j]) <= k
  }

  /** A newest-first sequence stays newest first past its head, and no key
      in it is above the head's. */
  lemma NewestFirstTail(s: seq<DocumentRecord>)
    requires NewestFirstOrder(s) && s != []
    ensures NewestFirstOrder(s[1..]) && KeysAtMost(s, SortKey(s[0]))
  {
    forall i, j | 0 <= i < j < |s[1..]| ensures SortKey(s[1..][i]) >= SortKey(s[1..][j]) {
      assert s[1..][i] == s[i + 1] && s[1..][j] == s[j + 1];
    }
  }

  /** Inserting adds `x` to the records and nothing else. */
  lemma {:induction false} InsertByKeyPermutes(s: seq<DocumentRecord>, x: DocumentRecord)
    ensures multiset(InsertByKey(s, x)) == multiset(s) + multiset{x}
    decreases |s|
  {
    if s != [] && SortKey(s[0]) >= SortKey(x) {
      InsertByKeyPermutes(s[1..], x);
      assert s == [s[0]] + s[1..];
    }
  }

  /** Inserting below a bound keeps every key below it. */
  lemma {:induction false} InsertByKeyBounded(s: seq<DocumentRecord>, x: DocumentRecord, k: nat)
    requires KeysAtMost(s, k) && SortKey(x) <= k
    ensures KeysAtMost(InsertByKey(s, x), k)
    decreases |s|
  {
    if s != [] && SortKey(s[0]) >= SortKey(x) {
      assert KeysAtMost(s[1..], k) by {
        forall j | 0 <= j < |s[1..]| ensures SortKey(s[1..][j]) <= k {
          assert s[1..][j] == s[j + 1];
        }
      }
      InsertByKeyBounded(s[1..], x, k);
    }
  }

  /** Inserting into a newest-first sequence keeps it newest first. */
  lemma {:induction false} InsertByKeySorted(s: seq<DocumentRecord>, x: DocumentRecord)
    requires NewestFirstOrder(s)
    ensures NewestFirstOrder(InsertByKey(s, x))
    decreases |s|
  {
    if s == [] {
    } else if SortKey(s[0]) < SortKey(x) {
      NewestFirstTail(s);
      var r := [x] + s;
      forall i, j | 0 <= i < j < |r| ensures SortKey(r[i]) >= SortKey(r[j]) {
        assert r[j] == s[j - 1];
        if i > 0 {
          assert r[i] == s[i - 1];
        }
      }
    } else {
      NewestFirstTail(s);
      InsertByKeySorted(s[1..], x);
      assert KeysAtMost(s[1..], SortKey(s[0])) by {
        forall j | 0 <= j < |s[1..]| ensures SortKey(s[1..][j]) <= SortKey(s[0]) {
          assert s[1..][j] == s[j + 1];
        }
      }
      InsertByKeyBounded(s[1..], x, SortKey(s[0]));
      var tail := InsertByKey(s[1..], x);
      var r := [s[0]] + tail;
      forall i, j | 0 <= i < j < |r| ensures SortKey(r[i]) >= SortKey(r[j]) {
        assert r[j] == tail[j - 1];
        if i > 0 {
          assert r[i] == tail[i - 1];
        }
      }
    }
  }

  /** The sort returns the records it was given, newest exclusion first. */
  lemma {:induction false} NewestFirstSortsAndPermutes(s: seq<DocumentRecord>)
    ensures NewestFirstOrder(NewestFirst(s))
    ensures multiset(NewestFirst(s)) == multiset(s)
    decreases |s|
  {
    if s != [] {
      NewestFirstSortsAndPermutes(s[..|s| - 1]);
      InsertByKeySorted(NewestFirst(s[..|s| - 1]), s[|s| - 1]);
      InsertByKeyPermutes(NewestFirst(s[..|s| - 1]), s[|s| - 1]);
      SplitLast(s);
    }
  }

  /** A sequence without key `k` has no records with key `k`. */
  lemma {:induction false} WithKeyAbsent(s: seq<DocumentRecord>, k: nat)
    requires forall j :: 0 <= j < |s| ==> SortKey(s[j]) != k
    ensures WithKey(s, k) == []
    decreases |s|
  {
    if s != [] {
      assert forall j :: 0 <= j < |s[1..]| ==> s[1..][j] == s[j + 1];
      WithKeyAbsent(s[1..], k);
    }
  }

  /** Inserting `x` adds it last among the records with its key. */
  lemma {:induction false} WithKeyInsert(s: seq<DocumentRecord>, x: DocumentRecord, k: nat)
    requires NewestFirstOrder(s)
    ensures WithKey(InsertByKey(s, x), k) == WithKey(s, k) + (if SortKey(x) == k then [x] else [])
    decreases |s|
  {
    if s == [] {
    } else if SortKey(s[0]) < SortKey(x) {
      NewestFirstTail(s);
      if SortKey(x) == k {
        WithKeyAbsent(s, k);
      }
      assert InsertByKey(s, x)[1..] == s;
    } else {
      NewestFirstTail(s);
      WithKeyInsert(s[1..], x, k);
      assert InsertByKey(s, x)[1..] == InsertByKey(s[1..], x);
    }
  }

  lemma {:induction false} WithKeyAppend(s: seq<DocumentRecord>, x: DocumentRecord, k: nat)
    ensures WithKey(s + [x], k) == WithKey(s, k) + (if SortKey(x) == k then [x] else [])
    decreases |s|
  {
    if s != [] {
      assert (s + [x])[1..] == s[1..] + [x];
      WithKeyAppend(s[1..], x, k);
    }
  }

  /** The sort is stable: records with the same key keep their order. */
  lemma {:induction false} NewestFirstIsStable(s: seq<DocumentRecord>, k: nat)
    ensures WithKey(NewestFirst(s), k) == WithKey(s, k)
    decreases |s|
  {
    if s != [] {
      var init, last := s[..|s| - 1], s[|s| - 1];
      NewestFirstIsStable(init, k);
      NewestFirstSortsAndPermutes(init);
      WithKeyInsert(NewestFirst(init), last, k);
      WithKeyAppend(init, last, k);
      SplitLast(s);
    }
  }

  /** The excluded records among `keys` are exactly the records filed
      under a key of `keys` that are excluded. */
  lemma {:induction false} ExcludedAmongMembers(docs: Docs, keys: seq<string>, r: DocumentRecord)
    requires forall id :: id in keys ==> id in docs
    ensures r in ExcludedAmong(docs, keys) <==> exists id :: id in keys && docs[id] == r && r.isExcluded
    decreases |keys|
  {
    if keys != [] {
      var init := keys[..|keys| - 1];
      ExcludedAmongMembers(docs, init, r);
      assert keys == init + [keys[|keys| - 1]];
      if r in ExcludedAmong(docs, keys) && r !in ExcludedAmong(docs, init) {
        assert docs[keys[|keys| - 1]] == r;
      }
    }
  }

  /** A record of the listing's input is the excluded record filed under
      its own id. */
  lemma ExcludedAmongFiled(docs: Docs, order: seq<string>, r: DocumentRecord)
    requires StoreInvariant(docs, order) && r in ExcludedAmong(docs, order)
    ensures r.docId in docs && docs[r.docId] == r && r.isExcluded
  {
    ExcludedAmongMembers(docs, order, r);
  }

  /** The sorted records are the excluded ones, each filed under its id. */
  lemma {:induction false} SortedExcluded(docs: Docs, order: seq<string>)
    requires StoreInvariant(docs, order)
    ensures var sorted := NewestFirst(ExcludedAmong(docs, order));
      && NewestFirstOrder(sorted)
      && (forall i :: 0 <= i < |sorted| ==> sorted[i].docId in docs && docs[sorted[i].docId] == sorted[i])
      && (forall id :: id in docs && docs[id].isExcluded ==> exists i :: 0 <= i < |sorted| && sorted[i].docId == id)
      && (forall i :: 0 <= i < |sorted| ==> sorted[i].isExcluded)
  {
    var excluded := ExcludedAmong(docs, order);
    var sorted := NewestFirst(excluded);
    NewestFirstSortsAndPermutes(excluded);
    forall i | 0 <= i < |sorted|
      ensures sorted[i].docId in docs && docs[sorted[i].docId] == sorted[i] && sorted[i].isExcluded
    {
      assert sorted[i] in multiset(excluded);
      ExcludedAmongFiled(docs, order, sorted[i]);
    }
    forall id | id in docs && docs[id].isExcluded
      ensures exists i :: 0 <= i < |sorted| && sorted[i].docId == id
    {
      ExcludedAmongMembers(docs, order, docs[id]);
      assert docs[id] in multiset(sorted);
      var i :| 0 <= i < |sorted| && sorted[i] == docs[id];
    }
  }

  /** No record occurs twice in `s`. */
  ghost predicate NoRepeats(s: seq<DocumentRecord>)
  {
    forall i, j :: 0 <= i < j < |s| ==> s[i] != s[j]
  }

  /** A sequence without repeats holds each record at most once. */
  lemma {:induction false} NoRepeatsCount(s: seq<DocumentRecord>, x: DocumentRecord)
    requires NoRepeats(s)
    ensures multiset(s)[x] <= 1
    decreases |s|
  {
    if s != [] {
      var rest := s[1..];
      assert s == [s[0]] + rest;
      assert NoRepeats(rest) by {
        forall i, j | 0 <= i < j < |rest| ensures rest[i] != rest[j] {
          assert rest[i] == s[i + 1] && rest[j] == s[j + 1];
        }
      }
      NoRepeatsCount(rest, x);
      if x == s[0] {
        forall k | 0 <= k < |rest| ensures rest[k] != x {
          assert rest[k] == s[k + 1];
        }
        assert x !in multiset(rest);
      }
    }
  }

  /** A record at two places of `t` occurs there at least twice. */
  lemma RepeatCount(t: seq<DocumentRecord>, i: nat, j: nat)
    requires i < j < |t| && t[i] == t[j]
    ensures multiset(t)[t[i]] >= 2
  {
    assert t == t[..j] + t[j..];
    assert t[..j][i] == t[i];
    assert t[j..][0] == t[i];
    assert multiset(t) == multiset(t[..j]) + multiset(t[j..]);
  }

  /** Sorting adds no repeats. */
  lemma NewestFirstNoRepeats(s: seq<DocumentRecord>)
    requires NoRepeats(s)
    ensures NoRepeats(NewestFirst(s))
  {
    var t := NewestFirst(s);
    NewestFirstSortsAndPermutes(s);
    forall i, j | 0 <= i < j < |t| ensures t[i] != t[j] {
      if t[i] == t[j] {
        RepeatCount(t, i, j);
        NoRepeatsCount(s, t[i]);
        assert false;
      }
    }
  }

  /** Distinct keys, each naming a record filed under it, give excluded
      records with distinct ids, all among the keys. */
  lemma {:induction false} ExcludedAmongDistinct(docs: Docs, keys: seq<string>)
    requires forall i, j :: 0 <= i < j < |keys| ==> keys[i] != keys[j]
    requires forall id :: id in keys ==> id in docs && docs[id].docId == id
    ensures forall i :: 0 <= i < |ExcludedAmong(docs, keys)| ==> ExcludedAmong(docs, keys)[i].docId in keys
    ensures forall i, j :: 0 <= i < j < |ExcludedAmong(docs, keys)| ==>
      ExcludedAmong(docs, keys)[i].docId != ExcludedAmong(docs, keys)[j].docId
    decreases |keys|
  {
    if keys != [] {
      var init, k := keys[..|keys| - 1], keys[|keys| - 1];
      forall id | id in init ensures id in keys {
        var a :| 0 <= a < |init| && init[a] == id;
        assert keys[a] == id;
      }
      ExcludedAmongDistinct(docs, init);
      var e, r := ExcludedAmong(docs, keys), ExcludedAmong(docs, init);
      if docs[k].isExcluded {
        assert e == r + [docs[k]];
        forall a | 0 <= a < |init| ensures init[a] != k {
          assert init[a] == keys[a];
        }
        forall i | 0 <= i < |e| ensures e[i].docId in keys {
          if i < |r| {
            assert e[i] == r[i] && r[i].docId in init;
          } else {
            assert e[i] == docs[k];
          }
        }
        forall i, j | 0 <= i < j < |e| ensures e[i].docId != e[j].docId {
          assert e[i] == r[i] && r[i].docId in init;
          if j < |r| {
            assert e[j] == r[j];
          } else {
            assert e[j] == docs[k];
          }
        }
      } else {
        assert e == r;
      }
    }
  }

  /** The listing's records have distinct ids. */
  lemma SortedDistinct(docs: Docs, order: seq<string>)
    requires StoreInvariant(docs, order)
    ensures var sorted := NewestFirst(ExcludedAmong(docs, order));
      forall i, j :: 0 <= i < j < |sorted| ==> sorted[i].docId != sorted[j].docId
  {
    var excluded := ExcludedAmong(docs, order);
    ExcludedAmongDistinct(docs, order);
    assert forall i, j :: 0 <= i < j < |excluded| ==> excluded[i].docId != excluded[j].docId;
    assert NoRepeats(excluded);
    NewestFirstNoRepeats(excluded);
    SortedExcluded(docs, order);
  }

  /** Records in the order their ids take in `keys`. */
  ghost predicate IdsInOrder(s: seq<DocumentRecord>, keys: seq<string>)
  {
    forall i, j :: 0 <= i < j < |s| ==> Before(keys, s[i].docId, s[j].docId)
  }

  /** Records with equal sort keys in the order their ids take in `keys`. */
  ghost predicate TiesInOrder(s: seq<DocumentRecord>, keys: seq<string>)
  {
    forall i, j :: 0 <= i < j < |s| && SortKey(s[i]) == SortKey(s[j]) ==> Before(keys, s[i].docId, s[j].docId)
  }

  /** The excluded records come in the order of the keys they are filed
      under. */
  lemma {:induction false} ExcludedAmongInOrder(docs: Docs, keys: seq<string>)
    requires forall id :: id in keys ==> id in docs && docs[id].docId == id
    ensures IdsInOrder(ExcludedAmong(docs, keys), keys)
    decreases |keys|
  {
    if keys != [] {
      var init, k := keys[..|keys| - 1], keys[|keys| - 1];
      assert keys == init + [k];
      ExcludedAmongInOrder(docs, init);
      var e, r := ExcludedAmong(docs, keys), ExcludedAmong(docs, init);
      forall i, j | 0 <= i < j < |r| ensures Before(keys, r[i].docId, r[j].docId) {
        BeforeExtend(init, k, r[i].docId, r[j].docId);
      }
      if docs[k].isExcluded {
        assert e == r + [docs[k]];
        forall i, j | 0 <= i < j < |e| ensures Before(keys, e[i].docId, e[j].docId) {
          assert e[i] == r[i];
          if j < |r| {
            assert e[j] == r[j];
          } else {
            ExcludedAmongMembers(docs, init, r[i]);
            var id :| id in init && docs[id] == r[i];
            var a :| 0 <= a < |init| && init[a] == id;
            assert keys[a] == e[i].docId && keys[|init|] == e[j].docId;
          }
        }
      } else {
        assert e == r;
      }
    }
  }

  /** Ties stay in order past the head. */
  lemma TiesTail(s: seq<DocumentRecord>, keys: seq<string>)
    requires TiesInOrder(s, keys) && s != []
    ensures TiesInOrder(s[1..], keys)
  {
    var rest := s[1..];
    forall i, j | 0 <= i < j < |rest| && SortKey(rest[i]) == SortKey(rest[j])
      ensures Before(keys, rest[i].docId, rest[j].docId)
    {
      assert rest[i] == s[i + 1] && rest[j] == s[j + 1];
    }
  }

  /** A head whose id stands before the id of every later record with its
      key keeps ties in order. */
  lemma TiesCons(h: DocumentRecord, t: seq<DocumentRecord>, keys: seq<string>)
    requires TiesInOrder(t, keys)
    requires forall y :: y in t && SortKey(y) == SortKey(h) ==> Before(keys, h.docId, y.docId)
    ensures TiesInOrder([h] + t, keys)
  {
    var r := [h] + t;
    forall i, j | 0 <= i < j < |r| && SortKey(r[i]) == SortKey(r[j])
      ensures Before(keys, r[i].docId, r[j].docId)
    {
      assert r[j] == t[j - 1];
      if i > 0 {
        assert r[i] == t[i - 1];
      }
    }
  }

  /** Inserting `x` after every record with its key that stands before it
      in `keys` keeps ties in the order of `keys`. */
  lemma {:induction false} InsertByKeyTies(s: seq<DocumentRecord>, x: DocumentRecord, keys: seq<string>)
    requires NewestFirstOrder(s) && TiesInOrder(s, keys)
    requires forall y :: y in s && SortKey(y) == SortKey(x) ==> Before(keys, y.docId, x.docId)
    ensures TiesInOrder(InsertByKey(s, x), keys)
    decreases |s|
  {
    if s == [] {
    } else if SortKey(s[0]) < SortKey(x) {
      NewestFirstTail(s);
      TiesCons(x, s, keys);
    } else {
      var rest := s[1..];
      NewestFirstTail(s);
      TiesTail(s, keys);
      InsertByKeyTies(rest, x, keys);
      InsertByKeyPermutes(rest, x);
      var tail := InsertByKey(rest, x);
      forall y | y in tail && SortKey(y) == SortKey(s[0])
        ensures Before(keys, s[0].docId, y.docId)
      {
        assert y in multiset(tail);
        if y != x {
          assert y in multiset(rest);
          var m :| 0 <= m < |rest| && rest[m] == y;
          assert s[m + 1] == y;
        }
      }
      TiesCons(s[0], tail, keys);
    }
  }

  /** Sorting records given in the order of `keys` leaves records with
      equal sort keys in that order. */
  lemma {:induction false} NewestFirstTies(s: seq<DocumentRecord>, keys: seq<string>)
    requires IdsInOrder(s, keys)
    ensures TiesInOrder(NewestFirst(s), keys)
    decreases |s|
  {
    if s != [] {
      var init, last := s[..|s| - 1], s[|s| - 1];
      assert IdsInOrder(init, keys) by {
        forall i, j | 0 <= i < j < |init| ensures Before(keys, init[i].docId, init[j].docId) {
          assert init[i] == s[i] && init[j] == s[j];
        }
      }
      NewestFirstTies(init, keys);
      NewestFirstSortsAndPermutes(init);
      forall y | y in NewestFirst(init) && SortKey(y) == SortKey(last)
        ensures Before(keys, y.docId, last.docId)
      {
        assert y in multiset(init);
        var a :| 0 <= a < |init| && init[a] == y;
        assert s[a] == y;
      }
      InsertByKeyTies(NewestFirst(init), last, keys);
    }
  }

  /** The listing's records excluded at the same time keep the store's
      insertion order. */
  lemma SortedTiesInOrder(docs: Docs, order: seq<string>)
    requires StoreInvariant(docs, order)
    ensures TiesInOrder(NewestFirst(ExcludedAmong(docs, order)), order)
  {
    ExcludedAmongInOrder(docs, order);
    NewestFirstTies(ExcludedAmong(docs, order), order);
  }

  /** Without the admin claim the listing fails with `PermissionDenied`.
      For an admin it holds a row for every excluded record and for no
      other id, no id twice, newest exclusion first, and rows excluded at
      the same time in the order their ids were first stored. */
  lemma ListExcludedRows(docs: Docs, order: seq<string>, isAdmin: bool)
    requires StoreInvariant(docs, order)
    ensures !isAdmin ==> ListExcluded(docs, order, isAdmin) == Failure(PermissionDenied)
    ensures isAdmin ==> ListExcluded(docs, order, isAdmin).Success?
    ensures isAdmin ==> var rows := ListExcluded(docs, order, isAdmin).value;
      && (forall id :: (exists i :: 0 <= i < |rows| && rows[i].docId == id) <==> id in docs && docs[id].isExcluded)
      && (forall i :: 0 <= i < |rows| ==> rows[i].docId in docs && rows[i] == Row(docs[rows[i].docId]))
      && (forall i, j :: 0 <= i < j < |rows| ==> SortKey(docs[rows[i].docId]) >= SortKey(docs[rows[j].docId]))
      && (forall i, j :: 0 <= i < j < |rows| ==> rows[i].docId != rows[j].docId)
      && (forall i, j :: 0 <= i < j < |rows| && SortKey(docs[rows[i].docId]) == SortKey(docs[rows[j].docId]) ==>
            Before(order, rows[i].docId, rows[j].docId))
  {
    if isAdmin {
      AdminRows(docs, order);
    }
  }

  /** The rows an admin gets, carried over from the sorted records. */
  lemma AdminRows(docs: Docs, order: seq<string>)
    requires StoreInvariant(docs, order)
    ensures ListExcluded(docs, order, true).Success?
    ensures var rows := ListExcluded(docs, order, true).value;
      && (forall id :: (exists i :: 0 <= i < |rows| && rows[i].docId == id) <==> id in docs && docs[id].isExcluded)
      && (forall i :: 0 <= i < |rows| ==> rows[i].docId in docs && rows[i] == Row(docs[rows[i].docId]))
      && (forall i, j :: 0 <= i < j < |rows| ==> SortKey(docs[rows[i].docId]) >= SortKey(docs[rows[j].docId]))
      && (forall i, j :: 0 <= i < j < |rows| ==> rows[i].docId != rows[j].docId)
      && (forall i, j :: 0 <= i < j < |rows| && SortKey(docs[rows[i].docId]) == SortKey(docs[rows[j].docId]) ==>
            Before(order, rows[i].docId, rows[j].docId))
  {
    var sorted := NewestFirst(ExcludedAmong(docs, order));
    var rows := ListExcluded(docs, order, true).value;
    SortedExcluded(docs, order);
    SortedDistinct(docs, order);
    SortedTiesInOrder(docs, order);
    assert |rows| == |sorted|;
    assert forall i :: 0 <= i < |rows| ==> rows[i] == Row(sorted[i]);
    forall id
      ensures (exists i :: 0 <= i < |rows| && rows[i].docId == id) <==> id in docs && docs[id].isExcluded
    {
      if id in docs && docs[id].isExcluded {
        var i :| 0 <= i < |sorted| && sorted[i].docId == id;
        assert rows[i].docId == id;
      }
    }
  }
}

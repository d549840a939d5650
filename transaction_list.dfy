/** The two list patches shared by the Redux reducers and the hook:
    `list.map(t => t.id === id ? { ...t, ...patch, updated_at } : t)` and
    `list.filter(t => t.id !== id)`. */
module TransactionList {
  import opened Wrappers
  import opened Seqs
  import opened Transactions

  /** Every entry whose id is `id` becomes `Merge(entry, patch, stamp)`; the
      others stay as they are. */
  function UpdateById(list: seq<Transaction>, id: string, patch: TransactionPatch, stamp: string)
    : (r: seq<Transaction>)
    ensures |r| == |list|
  {
    if list == [] then []
    else [if list[0].id == id then Merge(list[0], patch, stamp) else list[0]]
         + UpdateById(list[1..], id, patch, stamp)
  }

  /** Position by position: a matching entry is merged, any other is untouched. */
  lemma {:induction false} UpdateByIdAt(list: seq<Transaction>, id: string, patch: TransactionPatch,
                                        stamp: string, i: int)
    requires 0 <= i < |list|
    ensures UpdateById(list, id, patch, stamp)[i]
         == if list[i].id == id then Merge(list[i], patch, stamp) else list[i]
  {
    if i > 0 {
      UpdateByIdAt(list[1..], id, patch, stamp, i - 1);
    }
  }

  /** The whole effect of an update, for every position at once. */
  lemma UpdateByIdSpec(list: seq<Transaction>, id: string, patch: TransactionPatch, stamp: string)
    ensures |UpdateById(list, id, patch, stamp)| == |list|
    ensures forall i :: 0 <= i < |list| && list[i].id != id ==> UpdateById(list, id, patch, stamp)[i] == list[i]
    ensures forall i :: 0 <= i < |list| && list[i].id == id ==>
              UpdateById(list, id, patch, stamp)[i] == Merge(list[i], patch, stamp)
              && UpdateById(list, id, patch, stamp)[i].updatedAt == stamp
  {
    forall i | 0 <= i < |list| {
      UpdateByIdAt(list, id, patch, stamp, i);
    }
  }

  /** Updating an id that no entry has changes nothing. */
  lemma UpdateByIdAbsent(list: seq<Transaction>, id: string, patch: TransactionPatch, stamp: string)
    requires forall i :: 0 <= i < |list| ==> list[i].id != id
    ensures UpdateById(list, id, patch, stamp) == list
  {
    UpdateByIdSpec(list, id, patch, stamp);
  }

  /** The reducer's update: a whole record as the patch. Matching entries
      become the record with the new stamp (an old description is kept only
      when the record has none); an absent id changes nothing. */
  lemma UpdateWithRecord(list: seq<Transaction>, payload: Transaction, stamp: string)
    ensures var r := UpdateById(list, payload.id, AsPatch(payload), stamp);
      && |r| == |list|
      && (forall i :: 0 <= i < |list| && list[i].id != payload.id ==> r[i] == list[i])
      && (forall i :: 0 <= i < |list| && list[i].id == payload.id ==>
            r[i] == payload.(updatedAt := stamp,
                             description := if payload.description.Some? then payload.description
                                            else list[i].description))
      && (payload.id !in Ids(list) ==> r == list)
      && Ids(r) == Ids(list)
  {
    UpdateByIdSpec(list, payload.id, AsPatch(payload), stamp);
    UpdateByIdKeepsIds(list, payload.id, AsPatch(payload), stamp);
    forall i | 0 <= i < |list| && list[i].id == payload.id {
      MergeWhole(list[i], payload, stamp);
    }
    if payload.id !in Ids(list) {
      UpdateByIdAbsent(list, payload.id, AsPatch(payload), stamp);
    }
  }

  /** The ids of a list, in order. */
  function Ids(list: seq<Transaction>): (ids: seq<string>)
    ensures |ids| == |list|
    ensures forall i :: 0 <= i < |list| ==> ids[i] == list[i].id
  {
    if list == [] then [] else [list[0].id] + Ids(list[1..])
  }

  /** No two entries share an id (the invariant the displayed set relies on). */
  predicate UniqueIds(list: seq<Transaction>)
  {
    forall i, j :: 0 <= i < j < |list| ==> list[i].id != list[j].id
  }

  /** A patch that leaves the id alone (absent, or the same id) keeps every id
      in place, so it keeps ids unique. */
  lemma UpdateByIdKeepsIds(list: seq<Transaction>, id: string, patch: TransactionPatch, stamp: string)
    requires patch.id == None || patch.id == Some(id)
    ensures Ids(UpdateById(list, id, patch, stamp)) == Ids(list)
    ensures UniqueIds(list) ==> UniqueIds(UpdateById(list, id, patch, stamp))
  {
    UpdateByIdSpec(list, id, patch, stamp);
  }

  predicate LacksId(id: string, t: Transaction) { t.id != id }

  /** `list.filter(t => t.id !== id)`. */
  function RemoveById(list: seq<Transaction>, id: string): (r: seq<Transaction>)
    ensures |r| <= |list|
    ensures forall i :: 0 <= i < |r| ==> r[i].id != id
  {
    Keep(list, t => LacksId(id, t))
  }

  /** Removal keeps every other entry, with its multiplicity, in its original
      relative order, and drops every entry with that id. */
  lemma RemoveByIdSpec(list: seq<Transaction>, id: string)
    ensures IsSubsequence(RemoveById(list, id), list)
    ensures forall t :: t in RemoveById(list, id) <==> t in list && t.id != id
    ensures forall t: Transaction :: t.id != id ==> multiset(RemoveById(list, id))[t] == multiset(list)[t]
  {
    KeepIsSubsequence(list, t => LacksId(id, t));
    KeepMembers(list, t => LacksId(id, t));
    forall t: Transaction | t.id != id ensures multiset(RemoveById(list, id))[t] == multiset(list)[t] {
      KeepMultiplicity(list, t => LacksId(id, t), t);
    }
  }

  /** Removing an id that no entry has changes nothing. */
  lemma RemoveByIdAbsent(list: seq<Transaction>, id: string)
    requires forall i :: 0 <= i < |list| ==> list[i].id != id
    ensures RemoveById(list, id) == list
  {
    KeepAll(list, t => LacksId(id, t));
  }

  /** Removing twice is removing once. */
  lemma RemoveByIdIdempotent(list: seq<Transaction>, id: string)
    ensures RemoveById(RemoveById(list, id), id) == RemoveById(list, id)
  {
    RemoveByIdAbsent(RemoveById(list, id), id);
  }

  /** With unique ids, removing the id of entry `k` removes exactly that entry. */
  lemma RemoveByIdExactlyOne(list: seq<Transaction>, k: int)
    requires UniqueIds(list) && 0 <= k < |list|
    ensures RemoveById(list, list[k].id) == list[..k] + list[k + 1..]
  {
    var id := list[k].id;
    var p := (t: Transaction) => LacksId(id, t);
    assert list == list[..k] + ([list[k]] + list[k + 1..]);
    KeepConcat(list[..k], [list[k]] + list[k + 1..], p);
    KeepConcat([list[k]], list[k + 1..], p);
    KeepAll(list[..k], p);
    KeepAll(list[k + 1..], p);
    KeepNone([list[k]], p);
  }

  /** Removal keeps ids unique. */
  lemma RemoveByIdKeepsUnique(list: seq<Transaction>, id: string)
    requires UniqueIds(list)
    ensures UniqueIds(RemoveById(list, id))
  {
    KeepIsSubsequence(list, t => LacksId(id, t));
    SubsequenceKeepsUnique(RemoveById(list, id), list);
  }

  lemma {:induction false} SubsequenceKeepsUnique(a: seq<Transaction>, b: seq<Transaction>)
    requires IsSubsequence(a, b) && UniqueIds(b)
    ensures UniqueIds(a)
    ensures forall x :: x in a ==> x in b
    decreases |b|
  {
    if a != [] && b != [] {
      if a[0] == b[0] && IsSubsequence(a[1..], b[1..]) {
        SubsequenceKeepsUnique(a[1..], b[1..]);
        forall j | 0 < j < |a| ensures a[0].id != a[j].id {
          assert a[j] in a[1..];
          var m :| 0 <= m < |b[1..]| && b[1..][m] == a[j];
          assert b[m + 1] == a[j];
        }
        forall x | x in a ensures x in b {
          if x != a[0] {
            assert x in a[1..];
            assert x in b[1..];
          }
        }
      } else {
        SubsequenceKeepsUnique(a, b[1..]);
      }
    }
  }

  /** Prepending a record whose id is new keeps ids unique. */
  lemma PrependKeepsUnique(t: Transaction, list: seq<Transaction>)
    requires UniqueIds(list) && forall i :: 0 <= i < |list| ==> list[i].id != t.id
    ensures UniqueIds([t] + list)
  {
  }
}

/** The Redux slice of features/transactionSlice.ts: one field, `list`, and
    the four reducers that rewrite it. The clock read inside the update
    reducer is the parameter `now`. */
module Slice {
  import opened Seqs
  import opened Transactions
  import opened TransactionList

  class TransactionSlice {
    var list: seq<Transaction>

    /** The initial state: an empty list. */
    constructor ()
      ensures list == []
    {
      list := [];
    }

    /** `setTransactionsRdx`: the list becomes the payload; nothing of the old
        list survives. */
    method SetTransactions(payload: seq<Transaction>)
      modifies this
      ensures list == payload
    {
      list := payload;
    }

    /** `addTransactionRdx`: `unshift` puts the payload in front; the old
        entries follow in their old order. */
    method AddTransaction(payload: Transaction)
      modifies this
      ensures list == [payload] + old(list)
      ensures |list| == |old(list)| + 1 && list[0] == payload && list[1..] == old(list)
      ensures UniqueIds(old(list)) && payload.id !in Ids(old(list)) ==> UniqueIds(list)
    {
      list := [payload] + list;
      if UniqueIds(old(list)) && payload.id !in Ids(old(list)) {
        PrependKeepsUnique(payload, old(list));
      }
    }

    /** `updateTransactionRdx`: every entry with the payload's id becomes the
        payload spread over it, stamped with `now`; the others, the length and
        the order are unchanged. */
    method UpdateTransaction(payload: Transaction, now: string)
      modifies this
      ensures list == UpdateById(old(list), payload.id, AsPatch(payload), now)
      ensures |list| == |old(list)|
      ensures forall i :: 0 <= i < |list| && old(list)[i].id != payload.id ==> list[i] == old(list)[i]
      ensures forall i :: 0 <= i < |list| && old(list)[i].id == payload.id ==>
                list[i] == payload.(updatedAt := now,
                                    description := if payload.description.Some? then payload.description
                                                   else old(list)[i].description)
      ensures payload.id !in Ids(old(list)) ==> list == old(list)
      ensures Ids(list) == Ids(old(list))
    {
      UpdateWithRecord(list, payload, now);
      list := UpdateById(list, payload.id, AsPatch(payload), now);
    }

    /** `deleteTransactionRdx`: no entry with the id remains, every other entry
        keeps its place in the relative order; an absent id changes nothing. */
    method DeleteTransaction(id: string)
      modifies this
      ensures list == RemoveById(old(list), id)
      ensures forall t :: t in list <==> t in old(list) && t.id != id
      ensures IsSubsequence(list, old(list))
      ensures id !in Ids(old(list)) ==> list == old(list)
      ensures UniqueIds(old(list)) ==> UniqueIds(list)
    {
      ghost var before := list;
      list := RemoveById(list, id);
      RemoveByIdSpec(before, id);
      if id !in Ids(before) {
        RemoveByIdAbsent(before, id);
      }
      if UniqueIds(before) {
        RemoveByIdKeepsUnique(before, id);
      }
    }
  }
}

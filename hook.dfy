/** The state of `useTransactions` (hooks/use-transactions.ts): the local
    list `transactions`, the flag `isLoading`, and the Redux slice the hook
    dispatches to. Each request method takes the outcome of its request as
    parameters: `ok` is `response.ok` (false also stands for a request that
    threw), and `body` is the decoded JSON, `None` when decoding threw. Clock
    readings are parameters too. The local list is patched only after an OK
    response, and `isLoading` is reset on every path, as the `finally`
    blocks do. */
module Hook {
  import opened Wrappers
  import opened Seqs
  import opened Text
  import opened Transactions
  import opened TransactionList
  import opened UrlQuery
  import opened Slice

  class TransactionsHook {
    var transactions: seq<Transaction>
    var isLoading: bool
    /** The store `useDispatch` reaches. */
    const store: TransactionSlice

    /** `useState([])` and `useState(false)`. */
    constructor (store: TransactionSlice)
      ensures this.store == store
      ensures transactions == [] && !isLoading
    {
      this.store := store;
      transactions := [];
      isLoading := false;
    }

    /** `getTransactions(filter)`: fetch the (filtered) list; on an OK,
        decodable response it replaces the local list and the store's list.
        Returns the URL requested. */
    method GetTransactions(filter: Option<TransactionFilter>, ok: bool, body: Option<seq<Transaction>>)
      returns (url: string)
      modifies this, store
      ensures url == RequestUrl(filter)
      ensures !isLoading
      ensures ok && body.Some? ==> transactions == body.value && store.list == body.value
      ensures !(ok && body.Some?) ==> transactions == old(transactions) && store.list == old(store.list)
    {
      isLoading := true;
      url := RequestUrl(filter);
      if ok && body.Some? {
        transactions := body.value;
        store.SetTransactions(body.value);
      }
      isLoading := false;
    }

    /** The mount/token effect: with a non-empty token and a super-admin
        user, load the unfiltered list; otherwise do nothing. */
    method LoadOnTokenChange(token: Option<string>, user: Option<User>, ok: bool,
                             body: Option<seq<Transaction>>)
      returns (url: Option<string>)
      modifies this, store
      ensures url.Some? <==> Given(token) && user.Some? && user.value.role == SuperAdmin
      ensures url.Some? ==> url.value == ApiBaseUrl + "/transactions?"
      ensures !isLoading || (url.None? && isLoading == old(isLoading))
      ensures url.Some? && ok && body.Some? ==> transactions == body.value && store.list == body.value
      ensures !(url.Some? && ok && body.Some?) ==>
                transactions == old(transactions) && store.list == old(store.list)
    {
      if Given(token) && user.Some? && user.value.role == SuperAdmin {
        var u := GetTransactions(None, ok, body);
        EmptyQueryString(None);
        url := Some(u);
      } else {
        url := None;
      }
    }

    /** `createTransaction(form)`: the record is the form with the id
        `Date.now().toString()` and the two stamps; on an OK response it is
        put in front of the local list and of the store's list. */
    method CreateTransaction(form: TransactionForm, nowMillis: nat, createdAt: string, updatedAt: string,
                             ok: bool)
      modifies this, store
      ensures !isLoading
      ensures var record := FromForm(form, DecimalString(nowMillis), createdAt, updatedAt);
              if ok then transactions == [record] + old(transactions) && store.list == [record] + old(store.list)
              else transactions == old(transactions) && store.list == old(store.list)
      ensures old(transactions) == old(store.list) ==> transactions == store.list
      ensures ok && UniqueIds(old(transactions)) && DecimalString(nowMillis) !in Ids(old(transactions)) ==>
                UniqueIds(transactions)
    {
      isLoading := true;
      var record := FromForm(form, DecimalString(nowMillis), createdAt, updatedAt);
      if ok {
        transactions := [record] + transactions;
        store.AddTransaction(record);
        if UniqueIds(old(transactions)) && record.id !in Ids(old(transactions)) {
          PrependKeepsUnique(record, old(transactions));
        }
      }
      isLoading := false;
    }

    /** `updateTransaction(id, form)`: on an OK, decodable response every
        local entry with that id gets the form merged in and the stamp `now`;
        the store is updated with the server's record and its own stamp
        `storeNow`. */
    method UpdateTransaction(id: string, form: TransactionPatch, ok: bool, body: Option<Transaction>,
                             now: string, storeNow: string)
      modifies this, store
      ensures !isLoading
      ensures ok && body.Some? ==>
                && transactions == UpdateById(old(transactions), id, form, now)
                && store.list == UpdateById(old(store.list), body.value.id, AsPatch(body.value), storeNow)
      ensures !(ok && body.Some?) ==> transactions == old(transactions) && store.list == old(store.list)
      ensures |transactions| == |old(transactions)|
      ensures forall i :: 0 <= i < |transactions| && old(transactions)[i].id != id ==>
                transactions[i] == old(transactions)[i]
      ensures ok && body.Some? ==> forall i :: 0 <= i < |transactions| && old(transactions)[i].id == id ==>
                transactions[i] == Merge(old(transactions)[i], form, now)
    {
      isLoading := true;
      if ok && body.Some? {
        UpdateByIdSpec(transactions, id, form, now);
        transactions := UpdateById(transactions, id, form, now);
        store.UpdateTransaction(body.value, storeNow);
      }
      isLoading := false;
    }

    /** `deleteTransaction(id)`: on an OK response exactly the entries with
        that id leave the local list and the store's list. */
    method DeleteTransaction(id: string, ok: bool)
      modifies this, store
      ensures !isLoading
      ensures if ok then transactions == RemoveById(old(transactions), id) && store.list == RemoveById(old(store.list), id)
              else transactions == old(transactions) && store.list == old(store.list)
      ensures forall t :: t in transactions <==> t in old(transactions) && (ok ==> t.id != id)
      ensures IsSubsequence(transactions, old(transactions))
      ensures old(transactions) == old(store.list) ==> transactions == store.list
    {
      isLoading := true;
      ghost var before := transactions;
      if ok {
        transactions := RemoveById(transactions, id);
        store.DeleteTransaction(id);
        RemoveByIdSpec(before, id);
      } else {
        SubsequenceRefl(before);
      }
      isLoading := false;
    }
  }
}

/** `filterTransactions` of hooks/use-transactions.ts: keep the transactions
    whose date equals the filter's date, when one is given, and whose name
    contains the filter's name ignoring ASCII case, when one is given. */
module Filtering {
  import opened Wrappers
  import opened Seqs
  import opened Text
  import opened Transactions

  /** The predicate handed to `transactions.filter`. */
  predicate Matches(filter: TransactionFilter, t: Transaction)
  {
    && (Given(filter.date) ==> t.date == filter.date.value)
    && (Given(filter.name) ==> Includes(ToLowerAscii(t.name), ToLowerAscii(filter.name.value)))
  }

  /** The filtered view of the hook's current list. */
  function FilterTransactions(transactions: seq<Transaction>, filter: TransactionFilter): (r: seq<Transaction>)
    ensures |r| <= |transactions|
  {
    Keep(transactions, t => Matches(filter, t))
  }

  /** A transaction is in the result exactly when it is in the input, has the
      filter's date (if one is given) and its lower-cased name contains the
      lower-cased filter name (if one is given); `Includes` is the substring
      test, characterised by its own contract. */
  lemma FilterMembers(transactions: seq<Transaction>, filter: TransactionFilter)
    ensures forall t :: t in FilterTransactions(transactions, filter) <==>
      && t in transactions
      && (Given(filter.date) ==> t.date == filter.date.value)
      && (Given(filter.name) ==> Includes(ToLowerAscii(t.name), ToLowerAscii(filter.name.value)))
  {
    KeepMembers(transactions, t => Matches(filter, t));
  }

  /** Each result entry satisfies the date and name tests. */
  lemma FilterSound(transactions: seq<Transaction>, filter: TransactionFilter)
    ensures forall i :: 0 <= i < |FilterTransactions(transactions, filter)| ==>
      var t := FilterTransactions(transactions, filter)[i];
      (Given(filter.date) ==> t.date == filter.date.value) &&
      (Given(filter.name) ==> Includes(ToLowerAscii(t.name), ToLowerAscii(filter.name.value)))
  {
  }

  /** The result is an order-preserving subsequence of the input, and every
      matching entry keeps its multiplicity. */
  lemma FilterIsSubsequence(transactions: seq<Transaction>, filter: TransactionFilter)
    ensures IsSubsequence(FilterTransactions(transactions, filter), transactions)
    ensures forall t :: Matches(filter, t) ==>
              multiset(FilterTransactions(transactions, filter))[t] == multiset(transactions)[t]
  {
    KeepIsSubsequence(transactions, t => Matches(filter, t));
    forall t | Matches(filter, t)
      ensures multiset(FilterTransactions(transactions, filter))[t] == multiset(transactions)[t]
    {
      KeepMultiplicity(transactions, t => Matches(filter, t), t);
    }
  }

  /** A filter with neither a date nor a name (`{}`, or empty strings) returns
      every transaction. */
  lemma EmptyFilterKeepsAll(transactions: seq<Transaction>, filter: TransactionFilter)
    requires !Given(filter.date) && !Given(filter.name)
    ensures FilterTransactions(transactions, filter) == transactions
  {
    KeepAll(transactions, t => Matches(filter, t));
  }

  /** Filtering an already filtered list with the same filter changes nothing. */
  lemma FilterIdempotent(transactions: seq<Transaction>, filter: TransactionFilter)
    ensures FilterTransactions(FilterTransactions(transactions, filter), filter)
         == FilterTransactions(transactions, filter)
  {
    KeepIdempotent(transactions, t => Matches(filter, t));
  }

  /** The name test ignores ASCII case on the transaction's side: names equal
      up to ASCII case pass or fail together. */
  lemma NameTestIgnoresCase(filter: TransactionFilter, t: Transaction, name: string)
    requires ToLowerAscii(name) == ToLowerAscii(t.name)
    ensures Matches(filter, t) <==> Matches(filter, t.(name := name))
  {
  }

  /** The name test ignores ASCII case on the filter's side: filter names
      equal up to ASCII case keep the same transactions. */
  lemma FilterNameIgnoresCase(filter: TransactionFilter, t: Transaction, name: string)
    requires filter.name.Some? && ToLowerAscii(name) == ToLowerAscii(filter.name.value)
    ensures Matches(filter, t) <==> Matches(filter.(name := Some(name)), t)
  {
    assert |name| == |filter.name.value|;
  }
}

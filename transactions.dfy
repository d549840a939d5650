/** The records of types/index.ts and the object-spread merge that the
    update paths apply to them. */
module Transactions {
  import opened Wrappers

  /** A stored transaction. `amount` is a signed whole number of rupiah;
      `description` is an optional key. */
  datatype Transaction = Transaction(
    id: string,
    name: string,
    amount: int,
    date: string,
    description: Option<string>,
    createdAt: string,
    updatedAt: string)

  /** The create form: a transaction without `id`, `created_at`, `updated_at`. */
  datatype TransactionForm = TransactionForm(
    name: string,
    amount: int,
    date: string,
    description: Option<string>)

  /** `Partial<Transaction>`: every key may be absent (`None`). */
  datatype TransactionPatch = TransactionPatch(
    id: Option<string>,
    name: Option<string>,
    amount: Option<int>,
    date: Option<string>,
    description: Option<string>,
    createdAt: Option<string>,
    updatedAt: Option<string>)

  /** A list filter; each key may be absent. */
  datatype TransactionFilter = TransactionFilter(date: Option<string>, name: Option<string>)

  datatype Role = Guest | SuperAdmin

  datatype User = User(id: string, name: string, email: string, role: Role)

  /** JavaScript truthiness of an optional string: present and not empty. */
  predicate Given(o: Option<string>)
  {
    o.Some? && o.value != ""
  }

  /** `{ ...t, ...patch, updated_at: stamp }`: every key the patch carries
      overrides the old one, and `updated_at` is always the new stamp. */
  function Merge(t: Transaction, patch: TransactionPatch, stamp: string): Transaction
  {
    Transaction(
      patch.id.GetOr(t.id),
      patch.name.GetOr(t.name),
      patch.amount.GetOr(t.amount),
      patch.date.GetOr(t.date),
      if patch.description.Some? then patch.description else t.description,
      patch.createdAt.GetOr(t.createdAt),
      stamp)
  }

  /** A whole transaction used as a spread source: all its keys are present,
      except `description` when it has none. */
  function AsPatch(t: Transaction): TransactionPatch
  {
    TransactionPatch(Some(t.id), Some(t.name), Some(t.amount), Some(t.date),
                     t.description, Some(t.createdAt), Some(t.updatedAt))
  }

  /** Merging a whole transaction into an old one yields the new one with the
      new stamp; only a `description` the new one lacks is taken over. */
  lemma MergeWhole(prev: Transaction, t: Transaction, stamp: string)
    ensures Merge(prev, AsPatch(t), stamp)
         == t.(updatedAt := stamp,
               description := if t.description.Some? then t.description else prev.description)
  {
  }

  /** `{ ...form, id, created_at, updated_at }`. */
  function FromForm(form: TransactionForm, id: string, createdAt: string, updatedAt: string): Transaction
  {
    Transaction(id, form.name, form.amount, form.date, form.description, createdAt, updatedAt)
  }
}

# Transaction list of the BMS dashboard, modelled in Dafny

The dashboard is a browser client over a REST backend. It keeps one list of
transactions twice: as local state of the `useTransactions` hook and as the
`list` of a Redux slice. This project models three things:

- the operations that rewrite that list: the four reducers of
  `features/transactionSlice.ts`, and the patches the hook applies after a
  request succeeds;
- the hook's client-side filter and the query string it sends;
- the amount-field parser `formatIDRInput` of `lib/utils.ts`.

Modules, one concept each:

- `Wrappers`: `Option`. It stands for a JavaScript key that may be absent, or a value that may be `undefined`.
- `Seqs`: `Keep`, which is `Array.prototype.filter` with a total predicate, and `IsSubsequence`.
- `Text`: ASCII lower-casing (the model of `toLowerCase`), `Includes` (`String.prototype.includes`), and decimal numerals.
- `Transactions`: the records of `types/index.ts` and the object-spread merge `{ ...t, ...patch, updated_at }`.
- `TransactionList`: `UpdateById` (the `.map` patch) and `RemoveById` (the `.filter` patch). The slice and the hook both use them.
- `Slice`: class `TransactionSlice`, with the field `list` and the four reducers as methods.
- `Filtering`: `filterTransactions`.
- `UrlQuery`: the `URLSearchParams` built by `getTransactions`, serialised as application/x-www-form-urlencoded (WHATWG URL Standard, section 5.2, which percent-encodes UTF-8 bytes). It also holds a reference parser. The partner property is the round trip: parsing a serialised query gives back its pairs.
- `Hook`: class `TransactionsHook`, with the fields `transactions`, `isLoading` and the `store` it dispatches to. It has one method per request.
- `IdrInput`: `formatIDRInput`.

Inputs from outside the program are method parameters:

- the HTTP outcome: `ok` is `response.ok`, and `false` also covers a request that threw;
- the decoded JSON response: `body`, which is `None` when `response.json()` threw;
- every clock reading: `now`, `storeNow`, `createdAt`, `updatedAt` are `toISOString()` strings, and `nowMillis` is `Date.now()`.

Clocks, the network and storage are not modelled otherwise.

What the model shows about the source, beyond the per-operation contracts:

- After an OK create, the hook keeps the client-made id `Date.now().toString()`. It ignores the record the server returns.
- An update patches the local list from the form, with one clock reading. It patches the store from the server's record, with another reading. So `UpdateTransaction` can make the two lists differ.
- From equal lists, get, create and delete leave them equal (their `ensures` say so). Update is the exception.

- The local list and the store are patched only after an OK response, and left as they were on failure (hooks/use-transactions.ts:116-121, 144-151, 173-178).
- `amount` is the integer the amount field parses (components/transaction-form.tsx:55-57). `formatToRupiah` shows it as rupiah with two decimals, and the model keeps `amount` as that integer.

## Model

| member | source | states |
|---|---|---|
| `Slice.TransactionSlice.constructor` | features/transactionSlice.ts:9-11 | the initial state is an empty list |
| `Slice.TransactionSlice.SetTransactions` | features/transactionSlice.ts:17-19 | the list becomes exactly the payload; nothing of the old list survives |
| `Slice.TransactionSlice.AddTransaction` | features/transactionSlice.ts:20-22 | the new list is the payload followed by the old list in order, one longer; ids stay unique when the payload's id is new |
| `Slice.TransactionSlice.UpdateTransaction` | features/transactionSlice.ts:23-26 | same length and order; entries with another id are unchanged; an entry with the payload's id becomes the payload stamped with `now` (keeping the old description only when the payload has none), even if the payload carried its own `updated_at`; an absent id changes nothing; ids are unchanged |
| `Slice.TransactionSlice.DeleteTransaction` | features/transactionSlice.ts:27-30 | no entry with the id remains, every other entry remains, in relative order; an absent id changes nothing; unique ids stay unique |
| `TransactionList.UpdateByIdAt` | features/transactionSlice.ts:24 | at each position, a matching entry is merged with the patch and the stamp, any other entry is untouched |
| `TransactionList.UpdateByIdSpec` | hooks/use-transactions.ts:150 | the map patch keeps length; non-matching entries are unchanged; matching ones are merged and carry the new `updated_at` |
| `TransactionList.UpdateWithRecord` | features/transactionSlice.ts:24 | with a whole record as the patch: same length; other ids untouched; each matching entry becomes the record stamped with the new time, inheriting only a missing description; an absent id changes nothing; ids are unchanged |
| `TransactionList.UpdateByIdAbsent` | features/transactionSlice.ts:24-25 | updating an id no entry has returns the list unchanged |
| `TransactionList.UpdateByIdKeepsIds` | hooks/use-transactions.ts:150 | a patch without an id, or with the same id, keeps the list of ids, so unique ids stay unique |
| `TransactionList.RemoveByIdSpec` | features/transactionSlice.ts:29 | the filter result is a subsequence of the list; an entry is in it exactly when it is in the list and has another id; each kept entry keeps its multiplicity |
| `TransactionList.RemoveByIdAbsent` | hooks/use-transactions.ts:177 | removing an absent id is a no-op |
| `TransactionList.RemoveByIdIdempotent` | features/transactionSlice.ts:29 | removing twice equals removing once |
| `TransactionList.RemoveByIdExactlyOne` | hooks/use-transactions.ts:177 | with unique ids, deleting entry k's id yields the list without entry k and nothing else changed |
| `TransactionList.RemoveByIdKeepsUnique` | features/transactionSlice.ts:29 | deletion keeps ids unique |
| `TransactionList.PrependKeepsUnique` | features/transactionSlice.ts:21 | prepending a record with a new id keeps ids unique |
| `Transactions.MergeWhole` | features/transactionSlice.ts:24 | spreading a whole transaction over an old one gives the new one with the new stamp; only a missing description is inherited |
| `Seqs.KeepMultiplicity` | hooks/use-transactions.ts:84 | `filter` keeps every occurrence of an accepted element and none of a rejected one |
| `Seqs.KeepIsSubsequence` | hooks/use-transactions.ts:84 | `filter` preserves relative order |
| `Seqs.KeepConcat` | lib/utils.ts:20 | filtering distributes over concatenation |
| `Text.ToLowerAscii` | hooks/use-transactions.ts:88 | lower-casing keeps length and lower-cases each ASCII capital in place |
| `Text.Includes` | hooks/use-transactions.ts:88 | `includes` is true exactly when the needle occurs at some index |
| `Filtering.FilterMembers` | hooks/use-transactions.ts:84-92 | a transaction is in the result if and only if it is in the list, has the filter's date when one is given, and its lower-cased name includes the lower-cased filter name when one is given |
| `Filtering.FilterSound` | hooks/use-transactions.ts:85-90 | every result entry passes the date test and the name test |
| `Filtering.FilterIsSubsequence` | hooks/use-transactions.ts:84 | the result is an order-preserving subsequence; every matching entry keeps its multiplicity |
| `Filtering.EmptyFilterKeepsAll` | hooks/use-transactions.ts:85-91 | a filter with no non-empty date and no non-empty name returns every transaction |
| `Filtering.FilterIdempotent` | hooks/use-transactions.ts:83-93 | filtering the filtered list again with the same filter changes nothing |
| `Filtering.NameTestIgnoresCase` | hooks/use-transactions.ts:88 | two transaction names equal up to ASCII case pass or fail the filter together |
| `Filtering.FilterNameIgnoresCase` | hooks/use-transactions.ts:88 | two filter names equal up to ASCII case keep exactly the same transactions |
| `UrlQuery.QueryParamsSpec` | hooks/use-transactions.ts:52-54 | `date` is sent if and only if a non-empty date is given, `name` if and only if a non-empty name is given, with the filter's values, `date` before `name`; the list holds exactly one pair per given field and nothing else |
| `UrlQuery.QueryStringRoundTrip` | hooks/use-transactions.ts:52-56 | parsing the query string gives back exactly the appended pairs in order |
| `UrlQuery.ParseSerialize` | hooks/use-transactions.ts:56 | for any pairs, parsing `URLSearchParams.toString()` returns them |
| `UrlQuery.DecodeEncode` | hooks/use-transactions.ts:56 | decoding a percent/plus-encoded component returns the original string, for every string |
| `UrlQuery.Utf8Decodes` | hooks/use-transactions.ts:56 | the UTF-8 bytes of a code point announce their length, use continuation bytes and decode to that code point |
| `UrlQuery.EmptyQueryString` | hooks/use-transactions.ts:61 | with no filter or only empty values the query is empty and the URL ends in `/transactions?` |
| `Hook.TransactionsHook.constructor` | hooks/use-transactions.ts:13-14 | the hook starts with an empty list and `isLoading` false |
| `Hook.TransactionsHook.GetTransactions` | hooks/use-transactions.ts:49-81 | fetches `RequestUrl(filter)`; on an OK, decodable response the local list and the store's list both become the response data, otherwise neither changes; `isLoading` ends false |
| `Hook.TransactionsHook.LoadOnTokenChange` | hooks/use-transactions.ts:20-26 | the effect loads the unfiltered list exactly when the token is non-empty and the user is a super admin, and otherwise changes nothing |
| `Hook.TransactionsHook.CreateTransaction` | hooks/use-transactions.ts:95-127 | on OK, the record built from the form, the id `Date.now().toString()` and the two stamps is prepended to both lists; otherwise both are unchanged; equal lists stay equal; `isLoading` ends false |
| `Hook.TransactionsHook.UpdateTransaction` | hooks/use-transactions.ts:129-157 | on an OK, decodable response the local entries with the id get the form merged in with the new stamp and the others stay, and the store applies the server record; otherwise nothing changes; `isLoading` ends false |
| `Hook.TransactionsHook.DeleteTransaction` | hooks/use-transactions.ts:159-184 | on OK exactly the entries with the id leave both lists, the rest keep their order; otherwise nothing changes; equal lists stay equal; `isLoading` ends false |
| `Text.DecimalStringValue` | hooks/use-transactions.ts:99 | the decimal numeral of a number reads back as that number |
| `Text.LeadingZeros` | lib/utils.ts:22 | zeros in front of a digit string do not change its value |
| `Text.DigitsValuePositive` | lib/utils.ts:22 | a digit string has a positive value exactly when it has a non-zero digit |
| `IdrInput.RawMagnitude` | lib/utils.ts:20-22 | the magnitude of `raw` is the decimal value of the input's ASCII digits in order; no digits gives 0 |
| `IdrInput.RawSign` | lib/utils.ts:18-22 | `raw` is negative exactly when the input starts with `-` and has a non-zero digit, positive exactly when it does not start with `-` and has one |
| `IdrInput.DisplaySign` | lib/utils.ts:23 | the display starts with `-` exactly when the input does |
| `IdrInput.NonDigitsIgnored` | lib/utils.ts:20 | inserting or removing a non-digit anywhere after position 0 (a later `-` included) changes neither `raw` nor the display |
| `IdrInput.LeadingZeroIgnored` | lib/utils.ts:20-22 | a zero inserted where only zeros and non-digits precede it, and not in front of a leading `-` (so "0-5" is excluded, which is no longer negative), changes neither `raw` nor the display |
| `IdrInput.SeparatorExample` | lib/utils.ts:20-22 | "0.012" and "12" give the same result |
| `IdrInput.TwelveExample` | lib/utils.ts:22 | "12" gives `raw` 12 |
| `IdrInput.DigitsOfGrouped` | lib/utils.ts:23 | the grouped display keeps the numeral's digits in order and adds only separators |
| `IdrInput.GroupedChars` | lib/utils.ts:23 | the grouped numeral consists of digits and dots only |
| `IdrInput.ReparseDisplay` | lib/utils.ts:17-25 | parsing the display again yields the same `raw` and the same display |

## Left out

- `getTodayTotal` (hooks/use-transactions.ts:28-47) is left out. It fetches one number and returns it without touching the list.
- `fetch` itself is left out: headers, bearer tokens, JSON bodies sent, `localStorage`, the 401 handling and redirects of lib/api.ts. `response.ok` and the decoded body are parameters instead.
- The one-second `setTimeout` delays and concurrent calls are not modelled. The model runs each request method to completion in one step. It does not capture that `isLoading` is visible as true while a request is in flight, or how overlapping requests interleave.
- `console.log` and `console.error` are left out.
- React is not modelled: rendering, batching of `setTransactions`, and the dependency tracking of `useEffect`. `LoadOnTokenChange` is one run of the effect. Immer's draft mutation is modelled as a field update.
- `formatToRupiah` (lib/utils.ts:8-15) is left out. It is locale formatting of floating-point numbers.
- `IdrInput.FormatIDRInput`: `raw` is an unbounded integer. It does not model JavaScript `Number` precision beyond 2^53, `Infinity` for very long digit strings, or `-0` (the input "-" gives 0 here).
- `IdrInput.FormatNumber` models `Intl.NumberFormat("id-ID")` for whole numbers only, as a `.` between groups of three digits. Other locale data is not modelled.
- `Text.ToLowerAscii`: lower-casing covers ASCII only. Full Unicode case mapping is left out.
- `Slice.TransactionSlice.UpdateTransaction` reads the clock once per call. The source evaluates `new Date()` once per matching entry, so several entries sharing an id could get different stamps there.
- `Hook.TransactionsHook.UpdateTransaction` stamps every matching local entry with the one `now` it is given. The source calls `new Date().toISOString()` inside the `.map` callback, once per matching entry, so several local entries sharing an id could get different stamps there.
- `Transactions.Merge`: a patch key is either absent or holds a value. A key that is present but `undefined`, which would erase `description`, is not modelled. Neither are extra keys that a form object might carry.
- `UrlQuery.Parse` is a reference inverse of the serializer. It is not the full WHATWG parser: it rejects malformed percent sequences instead of passing them through. Strings are sequences of Unicode scalar values, so the replacement of lone UTF-16 surrogates by U+FFFD is not modelled.
- The response shape `data.data` is taken to be a list of transactions.
- All components, `app/*`, `contexts/auth-context.tsx`, `hooks/use-auth.ts` and `store/index.ts` are UI and wiring. They are not part of this model. From `types/index.ts` only the records are modelled.

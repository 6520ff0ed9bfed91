# symphony-tools: a verified model of the snapshot, converter and dictionary helpers

This project models three pieces of the `symphony_tools` package in Dafny and
proves what they promise.

- **Staking snapshot** (`snapshot_tools.py`). `get_all_validators` lists a
  chain's validators by following the REST API's `next_key` cursor.
  `get_delegators_page` reads one page of a validator's delegations under its
  retry decorator. `get_delegators_for_validator` collects a validator's
  delegations strictly above the chain's stake threshold and keeps what it
  has when a page fails. `process_chain` flattens the per-validator lists,
  groups the records by delegator, re-encodes each address under the
  `symphony` prefix, and keeps the groups whose total is strictly above the
  threshold.
- **Address converter** (`converter.py`). `convert_address` re-encodes the
  data part of a Bech32 address under a new prefix and raises `ValueError`
  for an address the decoder rejects. `convert_addresses` does this for every
  stripped line of a file, skips rejected lines, writes the joined result and
  returns how many lines it converted.
- **Nested dictionaries** (`helpers.py`). `get_value_dynamic_keys` and
  `set_value_dynamic_keys` read and write along a path of keys. The setter
  can create missing intermediate dictionaries.

The modules are:

| file | module | what it holds |
|---|---|---|
| `wrappers.dfy` | `Wrappers` | `Option` and `Result` |
| `pagination.dfy` | `Pagination` | replies, requests and the cursor protocol shared by both listings |
| `decimal_text.dfy` | `DecimalText` | exact reading of the `balance.amount` strings |
| `snapshot_fetch.dfy` | `SnapshotFetch` | validator listing, one delegation page with retries, delegation collection |
| `lexicographic.dfy` | `Lexicographic` | Python's string order and the sorted enumeration of a set, which is the order of the groups |
| `bech32_codec.dfy` | `Bech32` | the Bech32 codec as two abstract functions, with the round-trip law of BIP 173 as a hypothesis |
| `snapshot_aggregate.dfy` | `SnapshotAggregate` | flattening, grouping, conversion, post-filter, and `process_chain` |
| `bech32_converter.dfy` | `Bech32Converter` | `convert_address`, `str.strip`, `splitlines`, `join`, and `convert_addresses` |
| `nested_dicts.dfy` | `NestedDicts` | a heap of Python dictionaries and the two path helpers as methods on it |

Modelling choices:

- **Network.** A listing is the sequence of replies its requests receive, in
  request order. Each reply is a failed request or a decoded body. The
  delegation listing has one sequence of attempts per page. Every property
  holds for every such sequence. A request past the end of the sequence gets
  a failed request. That is how the model's loops end; the code has no such
  bound.
- **Requests.** The listing methods also return the requests they send:
  endpoint, `pagination.limit` and `pagination.key`. This lets the model state
  the cursor protocol.
- **Thread pool.** The pool in `process_chain` is modelled as a sequential
  map that keeps order.
- **Amounts.** Amounts are exact integers, read from their decimal text.
- **Aggregated frame.** It is a sequence of rows in pandas' group order, which
  is increasing address order.
- **Dictionaries.** Python dictionaries are mutable and can be shared, so
  `NestedDicts` keeps them in a heap. The class `DictHeap` holds that heap as
  fields, and its methods change it in place. The setter returns the very
  reference it was given.

Notes on what the code does:

- **Retries on HTTP errors.** `raise_for_status` raises an `HTTPError`, which
  is a `RequestException`. So a non-success status is retried like a
  connection error (snapshot_tools.py:76-79, 98).
- **Validator listing.** The listing has no retry. Any error in it propagates
  out of `process_chain` (snapshot_tools.py:53-70, 171).
- **A failing validator.** The loop catches the exception itself and keeps
  the records of the pages before the failing one. It does not drop the
  validator's whole contribution (snapshot_tools.py:128-137).
- **Unusable addresses.** The snapshot's `convert_address` ignores the decoded
  prefix and does not check the decoder's answer. For an address the decoder
  rejects, the data part is `None` and encoding raises `TypeError`. That
  aborts the whole chain; it does not skip the delegator
  (snapshot_tools.py:156-157, 193-194).
- **Order of conversion and filtering.** Addresses are converted before the
  post-filter, so a group below the threshold can still make the chain fail
  (snapshot_tools.py:193-198).
- **Page count.** No maximum page count is enforced.
- **A chain with no surviving record.** `process_chain` raises `KeyError` when
  nothing is left to group (see "## Findings"). `ProcessChain` models this;
  the properties of the aggregation are proved of the corrected version,
  which agrees with the code whenever some record survives.

## Model

| member | source | states |
|---|---|---|
| Pagination.PageRequest | src/symphony_tools/snapshot_tools/snapshot_tools.py:55-58 | a request carries `pagination.key` exactly when the cursor is truthy (present and not empty), and then carries that cursor |
| Pagination.ListingEnd | src/symphony_tools/snapshot_tools/snapshot_tools.py:67-69 | a listing stops at the first page that failed or has a missing or empty `next_key`; every earlier page continued it |
| Pagination.ListingRequests | src/symphony_tools/snapshot_tools/snapshot_tools.py:53-70 | a listing whose first k pages continued it sends exactly k + 1 requests |
| Pagination.ListingRequestAt | src/symphony_tools/snapshot_tools/snapshot_tools.py:53-70 | the first request has no key, and request j carries the `next_key` of page j - 1 |
| DecimalText.ParseAmount | src/symphony_tools/snapshot_tools/snapshot_tools.py:105 | an amount text is read exactly when it is an optionally signed run of digits |
| DecimalText.ParseShowAmount | src/symphony_tools/snapshot_tools/snapshot_tools.py:105 | reading the canonical decimal spelling of any integer gives that integer back |
| DecimalText.DigitsValueOfShowNat | src/symphony_tools/snapshot_tools/snapshot_tools.py:105 | the digits written for a natural number have that number as their value |
| SnapshotFetch.OperatorAddresses | src/symphony_tools/snapshot_tools/snapshot_tools.py:64 | a page's addresses are its entries' `operator_address` fields, one per entry and in order; a missing field fails the page |
| SnapshotFetch.ValidatorsPage | src/symphony_tools/snapshot_tools/snapshot_tools.py:60-67 | a failed request fails the page with a request error, and any other failure is a malformed body; a page is read exactly when its body has both fields and every entry an `operator_address`, and then it holds the entries' addresses and the body's `next_key` |
| SnapshotFetch.ListingOutcome | src/symphony_tools/snapshot_tools/snapshot_tools.py:53-73 | the validator listing returns the addresses of all its pages, concatenated in page order, when its last page is readable; otherwise it raises that page's error and returns no partial list |
| SnapshotFetch.GetAllValidators | src/symphony_tools/snapshot_tools/snapshot_tools.py:49-73 | the loop returns the listing's outcome and sends exactly the listing's requests |
| SnapshotFetch.DelegationRecords | src/symphony_tools/snapshot_tools/snapshot_tools.py:101-108 | one record per entry and in order, holding the entry's delegator, the validator passed in (not one from the response), and the exact amount; a missing field or a non-numeric amount fails the page |
| SnapshotFetch.ReadDelegationsReply | src/symphony_tools/snapshot_tools/snapshot_tools.py:97-110 | a failed request fails the page with a request error, and any other failure is a malformed body; a page is read exactly when its body has both fields and every entry a delegator and a numeric amount, and then it holds the records built from the entries and the body's `next_key`; every record carries the validator asked for |
| SnapshotFetch.RetryFrom | src/symphony_tools/snapshot_tools/snapshot_tools.py:76-79 | retrying from attempt n makes more than n and at most 5 attempts in all |
| SnapshotFetch.GetDelegatorsPage | src/symphony_tools/snapshot_tools/snapshot_tools.py:76-110 | a page fetch makes between 1 and `max_retries` (5) attempts |
| SnapshotFetch.RetryFromStops | src/symphony_tools/snapshot_tools/snapshot_tools.py:76-79 | retrying skips exactly the failed requests and stops at the first received reply or after the last allowed attempt; the outcome is that of the last attempt |
| SnapshotFetch.RetryPolicy | src/symphony_tools/snapshot_tools/snapshot_tools.py:76-79 | only request errors are retried; the page fails with a request error exactly when all 5 attempts failed; a malformed body fails at once, without retry; the last error is re-raised unchanged |
| SnapshotFetch.AboveThresholdKeeps | src/symphony_tools/snapshot_tools/snapshot_tools.py:131 | the pre-filter keeps a record, as often as it occurs, exactly when its amount is strictly above the threshold; a record at the threshold is dropped |
| SnapshotFetch.AboveThresholdAppend | src/symphony_tools/snapshot_tools/snapshot_tools.py:131 | filtering page by page is filtering the concatenation |
| SnapshotFetch.PageRecordsOfValidator | src/symphony_tools/snapshot_tools/snapshot_tools.py:101-108 | every record of a fetched page, after its retries, carries the validator asked for |
| SnapshotFetch.DelegationsFromAbove | src/symphony_tools/snapshot_tools/snapshot_tools.py:125-141 | every record a validator's collection returns belongs to that validator and is strictly above the threshold |
| SnapshotFetch.DelegationsOutcome | src/symphony_tools/snapshot_tools/snapshot_tools.py:128-141 | the collection never fails: it returns the above-threshold records of every page up to the first that fails or has no `next_key`; a failing page adds nothing, and the pages before it are kept |
| SnapshotFetch.GetDelegatorsForValidator | src/symphony_tools/snapshot_tools/snapshot_tools.py:113-141 | the loop returns the collection's records and sends exactly the listing's requests |
| Lexicographic.LessIrreflexive | src/symphony_tools/snapshot_tools/snapshot_tools.py:184 | no address comes before itself in the order of the groups |
| Lexicographic.LessTransitive | src/symphony_tools/snapshot_tools/snapshot_tools.py:184 | the order of the groups is transitive |
| Lexicographic.LessTotal | src/symphony_tools/snapshot_tools/snapshot_tools.py:184 | any two different addresses are ordered one way or the other |
| Lexicographic.LeastExists | src/symphony_tools/snapshot_tools/snapshot_tools.py:184 | every non-empty set of addresses has a least element |
| Lexicographic.LeastUnique | src/symphony_tools/snapshot_tools/snapshot_tools.py:184 | the least element is unique |
| Lexicographic.SortedEnumerates | src/symphony_tools/snapshot_tools/snapshot_tools.py:184-187 | the group keys list every distinct address exactly once, in strictly increasing order |
| Lexicographic.IncreasingIsSorted | src/symphony_tools/snapshot_tools/snapshot_tools.py:184-187 | any strictly increasing listing of a set is that set's sorted enumeration |
| Bech32Converter.ConvertAddress | src/symphony_tools/bech32_converter/converter.py:3-20 | it raises the invalid-address error, naming the address, exactly when the decoder returns no prefix or no data part |
| Bech32Converter.ConvertedDecodes | src/symphony_tools/bech32_converter/converter.py:17-20 | under the round-trip law, a converted address decodes to the new prefix and the original data part |
| Bech32Converter.ConvertIdempotent | src/symphony_tools/bech32_converter/converter.py:17-20 | converting a converted address to the same prefix again gives the same string |
| Bech32Converter.ConvertBack | src/symphony_tools/bech32_converter/converter.py:17-20 | converting an encoded address to another prefix and back gives the original address |
| Bech32Converter.StripStartSuffix | src/symphony_tools/bech32_converter/converter.py:44 | stripping the front removes exactly the leading whitespace |
| Bech32Converter.StripEndPrefix | src/symphony_tools/bech32_converter/converter.py:44 | stripping the back removes exactly the trailing whitespace |
| Bech32Converter.StripIsTrimmedSlice | src/symphony_tools/bech32_converter/converter.py:44 | a stripped line is a slice of the line with no whitespace at either end; only whitespace is removed around it |
| Bech32Converter.StripIdempotent | src/symphony_tools/bech32_converter/converter.py:44 | stripping twice is stripping once |
| Bech32Converter.AcceptedCount | src/symphony_tools/bech32_converter/converter.py:41-47 | at most one address is accepted per line |
| Bech32Converter.ConvertedLinesAppend | src/symphony_tools/bech32_converter/converter.py:41-47 | converting two blocks of lines is converting each block and concatenating; accepted lines keep their relative order |
| Bech32Converter.ConvertedLinesCount | src/symphony_tools/bech32_converter/converter.py:41-47 | the converted list has one entry per line whose stripped text the decoder accepts |
| Bech32Converter.ConvertedLinesMembers | src/symphony_tools/bech32_converter/converter.py:42-47 | an address is in the converted list exactly when it is the conversion of some input line; rejected lines are skipped, not fatal |
| Bech32Converter.LineEnd | src/symphony_tools/bech32_converter/converter.py:39 | the first line break at or after a position, or the end of the text |
| Bech32Converter.SplitJoinLines | src/symphony_tools/bech32_converter/converter.py:39-50 | splitting the text joined with newlines gives back the lines, when none is empty or holds a break |
| Bech32Converter.ConvertAddresses | src/symphony_tools/bech32_converter/converter.py:22-52 | the text written is the converted list joined by newlines, and the count returned is the length of that list, which is the number of accepted lines |
| Bech32Converter.WrittenLinesCount | src/symphony_tools/bech32_converter/converter.py:49-52 | reading the written file back gives the converted list, whose length is the count returned, when every converted address is a non-empty line without breaks |
| SnapshotAggregate.FlattenMembers | src/symphony_tools/snapshot_tools/snapshot_tools.py:178 | the flattened list holds exactly the records of the per-validator lists |
| SnapshotAggregate.AmountOfAppend | src/symphony_tools/snapshot_tools/snapshot_tools.py:184-186 | a group's sum over two blocks of records is the sum of the two blocks' sums |
| SnapshotAggregate.AmountOfPermutation | src/symphony_tools/snapshot_tools/snapshot_tools.py:184-186 | a group's sum does not depend on the order of the records |
| SnapshotAggregate.AmountOfRemove | src/symphony_tools/snapshot_tools/snapshot_tools.py:184-186 | removing one record removes its amount from its group's sum |
| SnapshotAggregate.AmountOfAbove | src/symphony_tools/snapshot_tools/snapshot_tools.py:184-198 | with a non-negative threshold and every record above it, every group's sum is above it |
| SnapshotAggregate.ConvertColumn | src/symphony_tools/snapshot_tools/snapshot_tools.py:193-194 | the converted column has one converted address per original address, in order; otherwise it names an address whose conversion raises |
| SnapshotAggregate.KeepAboveMembers | src/symphony_tools/snapshot_tools/snapshot_tools.py:198 | the post-filter keeps exactly the rows whose total is strictly above the threshold |
| SnapshotAggregate.KeepAboveIncreasing | src/symphony_tools/snapshot_tools/snapshot_tools.py:198 | the post-filter keeps the rows' address order |
| SnapshotAggregate.KeepAboveAll | src/symphony_tools/snapshot_tools/snapshot_tools.py:198 | when every row is above the threshold, the post-filter keeps them all |
| SnapshotAggregate.NoRecordsAsWritten | src/symphony_tools/snapshot_tools/snapshot_tools.py:181-187 | with no surviving record the code as written raises (no `address` column), and the corrected aggregation returns no rows |
| SnapshotAggregate.AsWrittenAgrees | src/symphony_tools/snapshot_tools/snapshot_tools.py:181-198 | with at least one surviving record, the code as written and the corrected aggregation agree |
| SnapshotAggregate.ChainRowsSucceeds | src/symphony_tools/snapshot_tools/snapshot_tools.py:193-194 | aggregation fails exactly when some delegator address cannot be re-encoded, and then names such an address |
| SnapshotAggregate.ChainRowsSound | src/symphony_tools/snapshot_tools/snapshot_tools.py:184-198 | each row is one delegator's group: its total (strictly above the threshold), its distinct validators, its original and converted address, and the chain's name |
| SnapshotAggregate.ChainRowsComplete | src/symphony_tools/snapshot_tools/snapshot_tools.py:184-198 | every delegator whose total is strictly above the threshold has a row |
| SnapshotAggregate.ChainRowsIncreasing | src/symphony_tools/snapshot_tools/snapshot_tools.py:184-187 | rows are in strictly increasing order of original address, so there is one row per delegator |
| SnapshotAggregate.ChainRowsOrderIndependent | src/symphony_tools/snapshot_tools/snapshot_tools.py:178-198 | the result depends only on the multiset of records, not on their order |
| SnapshotAggregate.PostFilterRemovesNothing | src/symphony_tools/snapshot_tools/snapshot_tools.py:198 | with a non-negative threshold and pre-filtered records, there is a row for every distinct delegator |
| SnapshotAggregate.PostFilterNegativeThreshold | src/symphony_tools/snapshot_tools/snapshot_tools.py:198 | with threshold -10, the records -6 and -7 of one delegator both pass the pre-filter, and the post-filter removes their group |
| SnapshotAggregate.ThresholdExample | src/symphony_tools/snapshot_tools/snapshot_tools.py:131-198 | at threshold 15000000, 20000000 via V1 and 10000000 via V2 give one row of 20000000 with validators {V1} |
| SnapshotAggregate.CollectedAllExtends | src/symphony_tools/snapshot_tools/snapshot_tools.py:175-176 | mapping over one more validator appends that validator's collection |
| SnapshotAggregate.CollectedAllAbove | src/symphony_tools/snapshot_tools/snapshot_tools.py:175-178 | every record of the chain is strictly above the threshold and belongs to a listed validator |
| SnapshotAggregate.ChainRowValidators | src/symphony_tools/snapshot_tools/snapshot_tools.py:171-187 | every row has at least one validator, and all its validators are listed validators |
| SnapshotAggregate.ChainPostFilterRemovesNothing | src/symphony_tools/snapshot_tools/snapshot_tools.py:171-198 | with a non-negative threshold, the chain has a row for every delegator with a delegation above the threshold |
| SnapshotAggregate.ChainOutcomeRecords | src/symphony_tools/snapshot_tools/snapshot_tools.py:171-198 | after a successful listing, the chain raises for want of an `address` column exactly when no record survives, and otherwise gives the aggregation of the collected records |
| SnapshotAggregate.NoValidatorsRaises | src/symphony_tools/snapshot_tools/snapshot_tools.py:171-184 | a chain whose listing returns no validator raises on the empty frame |
| SnapshotAggregate.ProcessChain | src/symphony_tools/snapshot_tools/snapshot_tools.py:160-201 | the method returns the chain's outcome as written: the listing error, the `KeyError` of an empty frame, or the aggregation of the collections of all listed validators |
| NestedDicts.LookupAppend | src/symphony_tools/helpers/helpers.py:24-27 | following a path in two legs is following the whole path, with the first leg's error kept |
| NestedDicts.GrowKeeps | src/symphony_tools/helpers/helpers.py:35 | `setdefault(key, {})` on a missing key adds one fresh empty dictionary under the key and changes no existing entry |
| NestedDicts.CreatingNeverMissing | src/symphony_tools/helpers/helpers.py:31-37 | with `create_missing`, the setter never returns early at a missing key |
| NestedDicts.WalkReaches | src/symphony_tools/helpers/helpers.py:30-35 | in any heap, the walk keeps every existing entry and ends at the dictionary that reading the same path in the new heap reaches |
| NestedDicts.WalkToExisting | src/symphony_tools/helpers/helpers.py:31-35 | a walk that ends at an existing dictionary created nothing |
| NestedDicts.LookupAvoidsTarget | src/symphony_tools/helpers/helpers.py:38-39 | in a heap whose references point to higher numbers, overwriting an entry of the final dictionary does not change where the path leads |
| NestedDicts.SetThenGet | src/symphony_tools/helpers/helpers.py:29-40 | after a successful set with `create_missing`, the dictionary passed in is returned and reading the same path gives the value set |
| NestedDicts.SetThenGetCyclic | src/symphony_tools/helpers/helpers.py:29-40 | with `d['a'] = d`, setting the path `a, a` to 5 succeeds, but reading it back raises `TypeError` |
| NestedDicts.SetFrame | src/symphony_tools/helpers/helpers.py:31-39 | in any heap, cyclic or not, no existing entry is removed; the only one that can change is the final key, set to the value, of the dictionary that the intermediate keys lead to in the old heap |
| NestedDicts.SetWithoutCreating | src/symphony_tools/helpers/helpers.py:31-40 | without `create_missing`: a missing intermediate key returns `dic` with nothing changed; a missing final key returns `None` with nothing changed; a present final key is the only entry overwritten |
| NestedDicts.WalkWithoutCreating | src/symphony_tools/helpers/helpers.py:31-37 | without `create_missing`, walking the intermediate keys is reading them |
| NestedDicts.CreatingWalk | src/symphony_tools/helpers/helpers.py:34-35 | from a fresh empty dictionary, every further key is created; each created dictionary holds one key, and other dictionaries are unchanged |
| NestedDicts.WalkCreatesOneKeyDicts | src/symphony_tools/helpers/helpers.py:31-35 | every dictionary the walk creates holds one key, except the one it ends on, which is empty |
| NestedDicts.SetCreatesOneKeyDicts | src/symphony_tools/helpers/helpers.py:29-40 | every dictionary the setter creates ends up holding exactly one key |
| NestedDicts.DictHeap.NewDict | src/symphony_tools/helpers/helpers.py:35 | `{}` adds one empty dictionary under a fresh reference and changes nothing else |
| NestedDicts.DictHeap.GetValueDynamicKeys | src/symphony_tools/helpers/helpers.py:24-27 | the loop reads `d[k1]...[kn]`; the first missing key raises `KeyError` and indexing a non-dictionary raises `TypeError` |
| NestedDicts.DictHeap.SetValueDynamicKeys | src/symphony_tools/helpers/helpers.py:29-40 | the in-place loop changes the heap and answers exactly as the setter's definition says; on an exception the heap is unchanged, and it stays closed |

## Left out

- **HTTP, JSON and the server.** These are replaced by sequences of replies. A failed request stands for any `RequestException`. A missing field stands for a `KeyError`.
- **Retry waits.** The exponential backoff of `wait_exponential` (10 to 60 seconds) is timing only.
- **Logging.** Not modelled.
- **Concurrency.** `ThreadPoolExecutor` is modelled as an ordered, sequential map. Nothing else about threads is modelled.
- **`main`.** The pool over chains, the concatenation of frames, the CSV file, the previews and the floating-point statistics are not modelled.
- **Chain configuration.** The two hard-coded chains are not modelled; a chain is a parameter.
- **Page bound.** A listing ends because its reply sequence is finite. The code itself never stops a listing whose `next_key` is always present.
- **The Bech32 library.** It is not part of this model. Its decoder and encoder are abstract total functions. The round-trip law is a hypothesis of the lemmas that need it.
- **The unused `from_prefix` parameter.** The snapshot's `convert_address` does not read it, so the model drops it.
- DecimalText.ParseAmount: reads only integer spellings. Other texts `Decimal` accepts are treated as malformed, such as fractions, exponents, surrounding whitespace, `NaN` and `Infinity`. Staking amounts are integers in the API's base unit.
- Bech32Converter.ConvertAddress: the codec never raises, so the model does not show that an exception other than `ValueError` would escape the per-line `try`.
- **File I/O in `convert_addresses`.** The input file is its list of lines, and the output is the text written. The warning printed for a skipped line, and errors while opening, reading or writing, are not modelled.
- **The validator list of a group.** It is modelled as a set, because `list(set(x))` has no defined order.
- **Leaves in `NestedDicts`.** A leaf is an integer, which stands for any non-container value. The model does not cover lists, or strings, on which `in` and indexing behave differently.
- **Keys in `NestedDicts`.** Keys are strings.
- NestedDicts.SetThenGet: assumes that every stored reference names a dictionary with a larger number. A heap without cycles can always be renumbered so that this holds, but the lemma is stated only for heaps already numbered that way. `SetThenGetCyclic` shows that the property fails for a heap with a cycle.
- **`fetch_rest_api` and the logger setup in `helpers.py`.** Not modelled.
- SnapshotAggregate.ChainRowsSound: totals are exact sums. The program adds `Decimal` values, which rounds past 28 significant digits. Staking amounts in base units stay many orders of magnitude below 10^28, so no total reaches that range. The same holds for `PostFilterRemovesNothing` and `ChainPostFilterRemovesNothing`.
- **Replies per validator.** A chain's replies for a validator are chosen by the validator's address. So a validator listed twice gets the same replies both times, while a real server could answer the second fetch differently.

## Findings

| source | as written | input that shows it | evidently intended | confidence | as-written member | corrected member |
|---|---|---|---|---|---|---|
| src/symphony_tools/snapshot_tools/snapshot_tools.py:181-187 | `pd.DataFrame(delegators)` with an empty list has no `address` column, so `groupby('address')` raises `KeyError` and the chain fails | a chain where no delegation is strictly above the threshold, or where every validator's first page fails | the chain contributes no rows | not executed | SnapshotAggregate.ChainRowsAsWritten | SnapshotAggregate.ChainRows |

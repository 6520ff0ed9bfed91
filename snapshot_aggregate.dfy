/*
 * `process_chain`: list the validators, collect each validator's delegations
 * above the threshold, flatten the per-validator lists, group the records by
 * delegator address (amounts summed, validators de-duplicated, groups in
 * address order), re-encode every address under the output prefix, and keep
 * the groups whose total is strictly above the threshold. The frame is a
 * sequence of rows; the thread pool is a sequential, order-preserving map.
 */
module SnapshotAggregate {
  import opened Wrappers
  import opened Pagination
  import opened SnapshotFetch
  import opened Bech32
  import opened Lexicographic

  /** The prefix every delegator address is re-encoded under. */
  const OutputPrefix := "symphony"

  /** One entry of the chain configuration list. */
  datatype ChainConfig = ChainConfig(name: string, apiUrl: string, prefix: string, stakeThreshold: int)

  /** What the network answers while one chain is processed: the replies to the
      validator listing, and for each validator the replies to each attempt of
      each of its delegation page requests. */
  datatype ChainNetwork = ChainNetwork(
    validatorReplies: seq<Reply<ValidatorsBody>>,
    delegationPages: string -> seq<seq<Reply<DelegationsBody>>>)

  /** Why `process_chain` raises: the validator listing failed, the frame
      built from no records has no `address` column to group by, or an address
      could not be re-encoded. */
  datatype ChainError = ListingFailed(error: FetchError) | NoAddressColumn | UnencodableAddress(address: string)

  /** One row of the returned frame. */
  datatype Row = Row(address: string, amount: int, validators: set<string>, originalAddress: string, chain: string)

  /** `[item for sublist in results for item in sublist]`. */
  function Flatten<T>(results: seq<seq<T>>): seq<T>
  {
    if |results| == 0 then [] else results[0] + Flatten(results[1..])
  }

  /** The flattened list holds exactly the items of the sublists. */
  lemma {:induction false} FlattenMembers<T>(results: seq<seq<T>>, x: T)
    ensures x in Flatten(results) <==> exists i :: 0 <= i < |results| && x in results[i]
  {
    if |results| > 0 {
      FlattenMembers(results[1..], x);
      if x in Flatten(results[1..]) {
        var i :| 0 <= i < |results[1..]| && x in results[1..][i];
        assert x in results[i + 1];
      }
      if i :| 0 <= i < |results| && x in results[i] {
        if i > 0 {
          assert x in results[1..][i - 1];
        }
      }
    }
  }

  /** The distinct delegator addresses among the records: the group keys. */
  function Addresses(records: seq<Delegation>): set<string> {
    set d | d in records :: d.address
  }

  /** The `'amount': 'sum'` of one group. */
  function AmountOf(records: seq<Delegation>, address: string): int {
    if |records| == 0 then 0
    else (if records[0].address == address then records[0].amount else 0) + AmountOf(records[1..], address)
  }

  /** The `list(set(x))` of one group: the distinct validators of its records. */
  function ValidatorsOf(records: seq<Delegation>, address: string): set<string> {
    set d | d in records && d.address == address :: d.validator
  }

  lemma {:induction false} AmountOfAppend(a: seq<Delegation>, b: seq<Delegation>, address: string)
    ensures AmountOf(a + b, address) == AmountOf(a, address) + AmountOf(b, address)
  {
    if |a| == 0 {
      assert a + b == b;
    } else {
      assert (a + b)[1..] == a[1..] + b;
      AmountOfAppend(a[1..], b, address);
    }
  }

  /** The sum of a group does not depend on the order of the records. */
  lemma {:induction false} AmountOfPermutation(a: seq<Delegation>, b: seq<Delegation>, address: string)
    requires multiset(a) == multiset(b)
    ensures AmountOf(a, address) == AmountOf(b, address)
    decreases |a|
  {
    if |a| == 0 {
      assert |b| == |multiset(b)| == 0;
    } else {
      assert a[0] in multiset(b);
      var j :| 0 <= j < |b| && b[j] == a[0];
      var rest := b[..j] + b[j + 1..];
      AmountOfRemove(b, j, address);
      assert a == [a[0]] + a[1..];
      assert multiset(a) == multiset{a[0]} + multiset(a[1..]);
      assert multiset(a[1..]) == multiset(a) - multiset{a[0]};
      assert multiset(a[1..]) == multiset(rest);
      AmountOfPermutation(a[1..], rest, address);
    }
  }

  /** Taking one record out of a list takes its amount out of its group's sum. */
  lemma AmountOfRemove(b: seq<Delegation>, j: nat, address: string)
    requires j < |b|
    ensures AmountOf(b, address)
            == (if b[j].address == address then b[j].amount else 0) + AmountOf(b[..j] + b[j + 1..], address)
    ensures multiset(b) == multiset{b[j]} + multiset(b[..j] + b[j + 1..])
  {
    assert b == b[..j] + ([b[j]] + b[j + 1..]);
    AmountOfAppend(b[..j], [b[j]] + b[j + 1..], address);
    AmountOfAppend([b[j]], b[j + 1..], address);
    AmountOfAppend(b[..j], b[j + 1..], address);
    assert [b[j]][1..] == [];
  }

  /** With a non-negative threshold and every record above it, the sum of a
      group that has a record is above it too. */
  lemma {:induction false} AmountOfAbove(records: seq<Delegation>, address: string, threshold: int)
    requires threshold >= 0
    requires forall d :: d in records ==> d.amount > threshold
    ensures AmountOf(records, address) >= 0
    ensures address in Addresses(records) ==> AmountOf(records, address) > threshold
  {
    if |records| > 0 {
      AmountOfAbove(records[1..], address, threshold);
      if address in Addresses(records) && records[0].address != address {
        var d :| d in records && d.address == address;
        assert d in records[1..];
      }
    }
  }

  /** The `convert_address` of `snapshot_tools.py`: the decoded prefix is
      ignored, and an address the decoder rejects has no data part, on which
      encoding raises `TypeError` (`None` here). */
  function ConvertForSnapshot(codec: Codec, address: string, toPrefix: string): Option<string> {
    match codec.decode(address).data
    case None => None
    case Some(data) => Some(codec.encode(toPrefix, data))
  }

  /** `.apply(convert_address)` on the address column: the converted column, or
      the first address whose conversion raised. */
  function ConvertColumn(codec: Codec, addresses: seq<string>, toPrefix: string): (r: Result<seq<string>, string>)
    ensures r.Success? ==> |r.value| == |addresses|
    ensures r.Success? ==> forall k :: 0 <= k < |addresses| ==> ConvertForSnapshot(codec, addresses[k], toPrefix) == Some(r.value[k])
    ensures r.Failure? ==> r.error in addresses && ConvertForSnapshot(codec, r.error, toPrefix).None?
  {
    if |addresses| == 0 then Success([])
    else
      match ConvertForSnapshot(codec, addresses[0], toPrefix)
      case None => Failure(addresses[0])
      case Some(converted) =>
        match ConvertColumn(codec, addresses[1..], toPrefix)
        case Failure(address) => Failure(address)
        case Success(rest) => Success([converted] + rest)
  }

  /** `df_aggregated[df_aggregated['amount'] > stake_threshold]`. */
  function KeepAbove(rows: seq<Row>, threshold: int): seq<Row> {
    if |rows| == 0 then []
    else (if rows[0].amount > threshold then [rows[0]] else []) + KeepAbove(rows[1..], threshold)
  }

  lemma {:induction false} KeepAboveMembers(rows: seq<Row>, threshold: int, row: Row)
    ensures row in KeepAbove(rows, threshold) <==> row in rows && row.amount > threshold
  {
    if |rows| > 0 {
      KeepAboveMembers(rows[1..], threshold, row);
      assert rows == [rows[0]] + rows[1..];
    }
  }

  /** Rows in strictly increasing order of their original address, so at most
      one row per delegator. */
  predicate InAddressOrder(rows: seq<Row>) {
    forall i, j :: 0 <= i < j < |rows| ==> Less(rows[i].originalAddress, rows[j].originalAddress)
  }

  /** The post-filter keeps the rows' relative order. */
  lemma {:induction false} KeepAboveIncreasing(rows: seq<Row>, threshold: int)
    requires InAddressOrder(rows)
    ensures InAddressOrder(KeepAbove(rows, threshold))
  {
    if |rows| > 0 {
      KeepAboveIncreasing(rows[1..], threshold);
      var tail := KeepAbove(rows[1..], threshold);
      forall k | 0 <= k < |tail| ensures Less(rows[0].originalAddress, tail[k].originalAddress) {
        KeepAboveMembers(rows[1..], threshold, tail[k]);
        var j :| 0 <= j < |rows[1..]| && rows[1..][j] == tail[k];
        assert rows[j + 1] == tail[k];
      }
    }
  }

  /** The aggregated frame before the post-filter: one row per group key, in
      key order, with its converted address. */
  function GroupRows(chain: ChainConfig, records: seq<Delegation>, keys: seq<string>, converted: seq<string>): seq<Row>
    requires |converted| == |keys|
  {
    seq(|keys|, k requires 0 <= k < |keys| =>
      Row(converted[k], AmountOf(records, keys[k]), ValidatorsOf(records, keys[k]), keys[k], chain.name))
  }

  /** Lines 178-198 of `process_chain` on the flattened records, with the empty
      frame handled: group, convert, post-filter. */
  function ChainRows(chain: ChainConfig, codec: Codec, records: seq<Delegation>): Result<seq<Row>, ChainError> {
    var keys := Sorted(Addresses(records));
    match ConvertColumn(codec, keys, OutputPrefix)
    case Failure(address) => Failure(UnencodableAddress(address))
    case Success(converted) => Success(KeepAbove(GroupRows(chain, records, keys, converted), chain.stakeThreshold))
  }

  /** The same lines as written: a frame built from no records has no columns,
      so grouping by `address` raises `KeyError`. */
  function ChainRowsAsWritten(chain: ChainConfig, codec: Codec, records: seq<Delegation>): Result<seq<Row>, ChainError> {
    if |records| == 0 then Failure(NoAddressColumn) else ChainRows(chain, codec, records)
  }

  /** A chain with no delegation above its threshold makes the code as written
      raise instead of returning an empty frame; the corrected version returns
      no rows. */
  lemma NoRecordsAsWritten(chain: ChainConfig, codec: Codec)
    ensures ChainRowsAsWritten(chain, codec, []) == Failure(NoAddressColumn)
    ensures ChainRows(chain, codec, []) == Success([])
  {
    assert Addresses([]) == {};
  }

  /** Both versions agree whenever some record survives the pre-filter. */
  lemma AsWrittenAgrees(chain: ChainConfig, codec: Codec, records: seq<Delegation>)
    requires |records| > 0
    ensures ChainRowsAsWritten(chain, codec, records) == ChainRows(chain, codec, records)
  {
  }

  /** Aggregation fails exactly when some delegator address cannot be
      re-encoded; rows below the threshold are converted, and can fail, too. */
  lemma ChainRowsSucceeds(chain: ChainConfig, codec: Codec, records: seq<Delegation>)
    ensures ChainRows(chain, codec, records).Success?
            <==> forall a :: a in Addresses(records) ==> ConvertForSnapshot(codec, a, OutputPrefix).Some?
    ensures ChainRows(chain, codec, records).Failure? ==>
            ChainRows(chain, codec, records).error.UnencodableAddress?
            && ChainRows(chain, codec, records).error.address in Addresses(records)
  {
    var keys := Sorted(Addresses(records));
    SortedEnumerates(Addresses(records));
    if ConvertColumn(codec, keys, OutputPrefix).Success? {
      forall a | a in Addresses(records) ensures ConvertForSnapshot(codec, a, OutputPrefix).Some? {
        var k :| 0 <= k < |keys| && keys[k] == a;
      }
    }
  }

  /** Every row is the group of one delegator address: its total, its distinct
      validators, its converted address, the chain's name, and a total strictly
      above the threshold. */
  lemma ChainRowsSound(chain: ChainConfig, codec: Codec, records: seq<Delegation>, row: Row)
    requires ChainRows(chain, codec, records).Success?
    requires row in ChainRows(chain, codec, records).value
    ensures row.originalAddress in Addresses(records)
    ensures row.amount == AmountOf(records, row.originalAddress) > chain.stakeThreshold
    ensures row.validators == ValidatorsOf(records, row.originalAddress)
    ensures ConvertForSnapshot(codec, row.originalAddress, OutputPrefix) == Some(row.address)
    ensures row.chain == chain.name
  {
    var keys := Sorted(Addresses(records));
    SortedEnumerates(Addresses(records));
    var converted := ConvertColumn(codec, keys, OutputPrefix).value;
    var rows := GroupRows(chain, records, keys, converted);
    KeepAboveMembers(rows, chain.stakeThreshold, row);
    var k :| 0 <= k < |rows| && rows[k] == row;
    assert keys[k] in keys;
  }

  /** Every delegator whose total exceeds the threshold has a row. */
  lemma ChainRowsComplete(chain: ChainConfig, codec: Codec, records: seq<Delegation>, address: string)
    requires ChainRows(chain, codec, records).Success?
    requires address in Addresses(records) && AmountOf(records, address) > chain.stakeThreshold
    ensures exists row :: row in ChainRows(chain, codec, records).value && row.originalAddress == address
  {
    var keys := Sorted(Addresses(records));
    SortedEnumerates(Addresses(records));
    var converted := ConvertColumn(codec, keys, OutputPrefix).value;
    var rows := GroupRows(chain, records, keys, converted);
    var k :| 0 <= k < |keys| && keys[k] == address;
    KeepAboveMembers(rows, chain.stakeThreshold, rows[k]);
  }

  /** Rows are in increasing order of the original address, hence one row per
      delegator. */
  lemma ChainRowsIncreasing(chain: ChainConfig, codec: Codec, records: seq<Delegation>)
    requires ChainRows(chain, codec, records).Success?
    ensures InAddressOrder(ChainRows(chain, codec, records).value)
  {
    var keys := Sorted(Addresses(records));
    SortedEnumerates(Addresses(records));
    var converted := ConvertColumn(codec, keys, OutputPrefix).value;
    GroupRowsInOrder(chain, records, keys, converted);
    KeepAboveIncreasing(GroupRows(chain, records, keys, converted), chain.stakeThreshold);
  }

  lemma GroupRowsInOrder(chain: ChainConfig, records: seq<Delegation>, keys: seq<string>, converted: seq<string>)
    requires |converted| == |keys| && Increasing(keys)
    ensures InAddressOrder(GroupRows(chain, records, keys, converted))
  {
    var rows := GroupRows(chain, records, keys, converted);
    assert forall k :: 0 <= k < |keys| ==> rows[k].originalAddress == keys[k];
  }

  /** The result does not depend on the order of the records. */
  lemma ChainRowsOrderIndependent(chain: ChainConfig, codec: Codec, a: seq<Delegation>, b: seq<Delegation>)
    requires multiset(a) == multiset(b)
    ensures ChainRows(chain, codec, a) == ChainRows(chain, codec, b)
  {
    forall d ensures d in a <==> d in b {
      assert d in a <==> d in multiset(a);
    }
    assert Addresses(a) == Addresses(b);
    var keys := Sorted(Addresses(a));
    match ConvertColumn(codec, keys, OutputPrefix)
    case Failure(_) =>
    case Success(converted) =>
      forall k | 0 <= k < |keys|
        ensures GroupRows(chain, a, keys, converted)[k] == GroupRows(chain, b, keys, converted)[k]
      {
        AmountOfPermutation(a, b, keys[k]);
        assert ValidatorsOf(a, keys[k]) == ValidatorsOf(b, keys[k]);
      }
      assert GroupRows(chain, a, keys, converted) == GroupRows(chain, b, keys, converted);
  }

  /** With a non-negative threshold, the post-filter removes nothing from
      records that all passed the pre-filter: there is a row per delegator. */
  lemma PostFilterRemovesNothing(chain: ChainConfig, codec: Codec, records: seq<Delegation>)
    requires chain.stakeThreshold >= 0
    requires forall d :: d in records ==> d.amount > chain.stakeThreshold
    requires ChainRows(chain, codec, records).Success?
    ensures |ChainRows(chain, codec, records).value| == |Addresses(records)|
  {
    var keys := Sorted(Addresses(records));
    SortedEnumerates(Addresses(records));
    var converted := ConvertColumn(codec, keys, OutputPrefix).value;
    var rows := GroupRows(chain, records, keys, converted);
    forall k | 0 <= k < |keys| ensures rows[k].amount > chain.stakeThreshold {
      AmountOfAbove(records, keys[k], chain.stakeThreshold);
    }
    KeepAboveAll(rows, chain.stakeThreshold);
  }

  lemma {:induction false} KeepAboveAll(rows: seq<Row>, threshold: int)
    requires forall k :: 0 <= k < |rows| ==> rows[k].amount > threshold
    ensures KeepAbove(rows, threshold) == rows
  {
    if |rows| > 0 {
      KeepAboveAll(rows[1..], threshold);
    }
  }

  /** Without a non-negative threshold the post-filter can remove a delegator
      all of whose records passed: -6 and -7 both exceed -10, their sum does not. */
  lemma PostFilterNegativeThreshold(codec: Codec)
    requires codec.decode("a").data.Some?
    ensures var chain := ChainConfig("c", "u", "p", -10);
            var records := [Delegation("a", "V1", -6), Delegation("a", "V2", -7)];
            && (forall d :: d in records ==> d.amount > chain.stakeThreshold)
            && ChainRows(chain, codec, records) == Success([])
  {
    var chain := ChainConfig("c", "u", "p", -10);
    var records := [Delegation("a", "V1", -6), Delegation("a", "V2", -7)];
    assert Addresses(records) == {"a"};
    SortedSingleton("a");
    assert AmountOf(records, "a") == -13 by {
      assert records[1..] == [Delegation("a", "V2", -7)];
    }
    assert ["a"][1..] == [];
    var converted := ConvertColumn(codec, ["a"], OutputPrefix).value;
    var rows := GroupRows(chain, records, ["a"], converted);
    assert |rows| == 1 && rows[0].amount == -13;
    assert rows[1..] == [];
    assert KeepAbove(rows, -10) == [];
  }

  lemma SortedSingleton(x: string)
    ensures Sorted({x}) == [x]
  {
    SortedEnumerates({x});
  }

  /** A delegator with 20000000 via V1 and 10000000 via V2 on a chain with
      threshold 15000000: the V2 record is dropped before grouping, and the
      row holds 20000000 with validators {V1}. */
  lemma ThresholdExample(codec: Codec, address: string)
    requires codec.decode(address).data.Some?
    ensures var chain := ChainConfig("cosmos", "u", "cosmos", 15000000);
            var results := [AboveThreshold([Delegation(address, "V1", 20000000)], chain.stakeThreshold),
                            AboveThreshold([Delegation(address, "V2", 10000000)], chain.stakeThreshold)];
            ChainRows(chain, codec, Flatten(results))
              == Success([Row(codec.encode(OutputPrefix, codec.decode(address).data.value),
                              20000000, {"V1"}, address, "cosmos")])
  {
    var records := [Delegation(address, "V1", 20000000)];
    assert AboveThreshold([Delegation(address, "V1", 20000000)], 15000000) == records;
    assert AboveThreshold([Delegation(address, "V2", 10000000)], 15000000) == [];
    assert Flatten([records, []]) == records by {
      assert [records, []][1..] == [[]];
      assert Flatten<Delegation>([[]]) == [];
    }
    assert Addresses(records) == {address};
    assert ValidatorsOf(records, address) == {"V1"};
    assert AmountOf(records, address) == 20000000;
    SortedSingleton(address);
    assert [address][1..] == [];
    var converted := ConvertColumn(codec, [address], OutputPrefix).value;
    var chain := ChainConfig("cosmos", "u", "cosmos", 15000000);
    var rows := GroupRows(chain, records, [address], converted);
    assert |rows| == 1 && rows[0].amount == 20000000;
    assert rows[1..] == [];
    assert KeepAbove(rows, 15000000) == rows;
    assert converted[0] == codec.encode(OutputPrefix, codec.decode(address).data.value);
    assert ChainRows(chain, codec, records) == Success(rows);
    var results := [AboveThreshold([Delegation(address, "V1", 20000000)], chain.stakeThreshold),
                    AboveThreshold([Delegation(address, "V2", 10000000)], chain.stakeThreshold)];
    assert Flatten(results) == records;
    assert rows == [Row(converted[0], 20000000, {"V1"}, address, "cosmos")];
  }

  /** The records collected for one validator (`get_delegators_for_validator`). */
  function Collected(chain: ChainConfig, net: ChainNetwork, validator: string): seq<Delegation> {
    DelegationsFrom(DelegationOutcomes(net.delegationPages(validator), validator), 0, chain.stakeThreshold)
  }

  /** `list(executor.map(get_delegators_for_validator, args_list))`. */
  function CollectedAll(chain: ChainConfig, net: ChainNetwork, validators: seq<string>): seq<seq<Delegation>> {
    seq(|validators|, i requires 0 <= i < |validators| => Collected(chain, net, validators[i]))
  }

  lemma CollectedAllExtends(chain: ChainConfig, net: ChainNetwork, validators: seq<string>, j: nat)
    requires j < |validators|
    ensures CollectedAll(chain, net, validators[..j + 1])
            == CollectedAll(chain, net, validators[..j]) + [Collected(chain, net, validators[j])]
  {
    assert validators[..j + 1] == validators[..j] + [validators[j]];
  }

  /** What `process_chain` returns, or why it raises, as written: a chain
      without any surviving record raises on the empty frame. */
  function ChainOutcome(chain: ChainConfig, codec: Codec, net: ChainNetwork): Result<seq<Row>, ChainError> {
    match ValidatorsFrom(ValidatorOutcomes(net.validatorReplies), 0)
    case Failure(e) => Failure(ListingFailed(e))
    case Success(validators) => ChainRowsAsWritten(chain, codec, Flatten(CollectedAll(chain, net, validators)))
  }

  /** When the listing succeeds, `process_chain` raises for want of an
      `address` column exactly when no record survives; otherwise it is the
      corrected aggregation of the records. */
  lemma ChainOutcomeRecords(chain: ChainConfig, codec: Codec, net: ChainNetwork)
    requires ValidatorsFrom(ValidatorOutcomes(net.validatorReplies), 0).Success?
    ensures var records := Flatten(CollectedAll(chain, net, ValidatorsFrom(ValidatorOutcomes(net.validatorReplies), 0).value));
            && (|records| == 0 ==> ChainOutcome(chain, codec, net) == Failure(NoAddressColumn))
            && (|records| > 0 ==> ChainOutcome(chain, codec, net) == ChainRows(chain, codec, records))
  {
  }

  /** A chain whose only validator page lists no validator and has no
      `next_key` makes `process_chain` raise on the empty frame. */
  lemma NoValidatorsRaises(chain: ChainConfig, codec: Codec, delegationPages: string -> seq<seq<Reply<DelegationsBody>>>)
    ensures var net := ChainNetwork([Received(ValidatorsBody(Some([]), Some(PaginationField(None))))], delegationPages);
            ChainOutcome(chain, codec, net) == Failure(NoAddressColumn)
  {
    var net := ChainNetwork([Received(ValidatorsBody(Some([]), Some(PaginationField(None))))], delegationPages);
    assert ValidatorOutcomes(net.validatorReplies)[0] == Success(([], None));
    assert ValidatorsFrom(ValidatorOutcomes(net.validatorReplies), 0) == Success([]);
    assert Flatten(CollectedAll(chain, net, [])) == [];
  }

  /** Every record the chain collects is above the threshold and belongs to a
      listed validator. */
  lemma CollectedAllAbove(chain: ChainConfig, net: ChainNetwork, validators: seq<string>, d: Delegation)
    requires d in Flatten(CollectedAll(chain, net, validators))
    ensures d.amount > chain.stakeThreshold && d.validator in validators
  {
    FlattenMembers(CollectedAll(chain, net, validators), d);
    var i :| 0 <= i < |validators| && d in CollectedAll(chain, net, validators)[i];
    DelegationsFromAbove(net.delegationPages(validators[i]), validators[i], 0, chain.stakeThreshold, d);
  }

  /** A row's validators are listed validators, and at least one. */
  lemma ChainRowValidators(chain: ChainConfig, codec: Codec, net: ChainNetwork, row: Row)
    requires ValidatorsFrom(ValidatorOutcomes(net.validatorReplies), 0).Success?
    requires ChainOutcome(chain, codec, net).Success? && row in ChainOutcome(chain, codec, net).value
    ensures row.validators != {}
    ensures forall v :: v in row.validators ==> v in ValidatorsFrom(ValidatorOutcomes(net.validatorReplies), 0).value
  {
    var validators := ValidatorsFrom(ValidatorOutcomes(net.validatorReplies), 0).value;
    var records := Flatten(CollectedAll(chain, net, validators));
    ChainOutcomeRecords(chain, codec, net);
    ChainRowsSound(chain, codec, records, row);
    var d :| d in records && d.address == row.originalAddress;
    assert d.validator in row.validators;
    forall v | v in row.validators ensures v in validators {
      var e :| e in records && e.address == row.originalAddress && e.validator == v;
      CollectedAllAbove(chain, net, validators, e);
    }
  }

  /** With a non-negative threshold the chain has a row for every delegator
      any of whose delegations passed the pre-filter. */
  lemma ChainPostFilterRemovesNothing(chain: ChainConfig, codec: Codec, net: ChainNetwork)
    requires chain.stakeThreshold >= 0
    requires ValidatorsFrom(ValidatorOutcomes(net.validatorReplies), 0).Success?
    requires ChainOutcome(chain, codec, net).Success?
    ensures var validators := ValidatorsFrom(ValidatorOutcomes(net.validatorReplies), 0).value;
            |ChainOutcome(chain, codec, net).value| == |Addresses(Flatten(CollectedAll(chain, net, validators)))|
  {
    var validators := ValidatorsFrom(ValidatorOutcomes(net.validatorReplies), 0).value;
    var records := Flatten(CollectedAll(chain, net, validators));
    forall d | d in records ensures d.amount > chain.stakeThreshold {
      CollectedAllAbove(chain, net, validators, d);
    }
    ChainOutcomeRecords(chain, codec, net);
    PostFilterRemovesNothing(chain, codec, records);
  }

  /** `process_chain`: lists the validators (a listing error propagates),
      collects each validator's delegations in order, and aggregates them;
      with no record to aggregate it raises. */
  method ProcessChain(chain: ChainConfig, codec: Codec, net: ChainNetwork) returns (r: Result<seq<Row>, ChainError>)
    ensures r == ChainOutcome(chain, codec, net)
  {
    var listing, _ := GetAllValidators(chain.apiUrl, net.validatorReplies);
    if listing.Failure? {
      return Failure(ListingFailed(listing.error));
    }
    var validators := listing.value;
    var results: seq<seq<Delegation>> := [];
    for j := 0 to |validators|
      invariant results == CollectedAll(chain, net, validators[..j])
    {
      var delegators, _ := GetDelegatorsForValidator(chain.apiUrl, net.delegationPages(validators[j]), validators[j], chain.stakeThreshold);
      CollectedAllExtends(chain, net, validators, j);
      results := results + [delegators];
    }
    assert validators[..|validators|] == validators;
    r := ChainRowsAsWritten(chain, codec, Flatten(results));
  }
}

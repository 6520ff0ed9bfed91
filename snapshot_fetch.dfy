/** The collecting half of `snapshot_tools.py`: listing a chain's
    validators (`get_all_validators`), reading one page of a validator's
    delegations under the retry policy (`get_delegators_page`), and
    collecting all of a validator's delegations above the stake threshold
    (`get_delegators_for_validator`). */
module SnapshotFetch {
  import opened Wrappers
  import opened Pagination
  import opened DecimalText

  /** `pagination.limit` of the validator listing. */
  const ValidatorsPageLimit := "1000"
  /** `pagination.limit` of the delegation listing. */
  const DelegationsPageLimit := "10000"
  /** `stop_after_attempt(max_retries)` of the retry policy. */
  const MaxRetries := 5

  function ValidatorsEndpoint(apiUrl: string): string {
    apiUrl + "/cosmos/staking/v1beta1/validators"
  }

  function DelegationsEndpoint(apiUrl: string, validator: string): string {
    apiUrl + "/cosmos/staking/v1beta1/validators/" + validator + "/delegations"
  }

  // ---------------------------------------------------------------------
  // Validators
  // ---------------------------------------------------------------------

  /** An element of `validators`; `operator_address` may be absent. */
  datatype ValidatorEntry = ValidatorEntry(operatorAddress: Option<string>)

  /** A validator-listing response; either field may be absent. */
  datatype ValidatorsBody = ValidatorsBody(validators: Option<seq<ValidatorEntry>>, pagination: Option<PaginationField>)

  /** `[v['operator_address'] for v in entries]`: `None` when an entry lacks
      the field (a `KeyError`). */
  function OperatorAddresses(entries: seq<ValidatorEntry>): (r: Option<seq<string>>)
    ensures r.Some? <==> forall i :: 0 <= i < |entries| ==> entries[i].operatorAddress.Some?
    ensures r.Some? ==> |r.value| == |entries|
    ensures r.Some? ==> forall i :: 0 <= i < |entries| ==> r.value[i] == entries[i].operatorAddress.value
  {
    if |entries| == 0 then Some([])
    else
      match (entries[0].operatorAddress, OperatorAddresses(entries[1..]))
      case (Some(address), Some(rest)) => Some([address] + rest)
      case _ => None
  }

  /** One validator page: its operator addresses and its `next_key`, or the
      error the page raises. */
  function ValidatorsPage(reply: Reply<ValidatorsBody>): (r: PageResult<string>)
    ensures reply.RequestFailed? ==> r == Failure(RequestError)
    ensures r.Failure? ==> (r.error == RequestError <==> reply.RequestFailed?)
    ensures r.Success? <==> && reply.Received?
                            && reply.body.validators.Some? && reply.body.pagination.Some?
                            && OperatorAddresses(reply.body.validators.value).Some?
    ensures r.Success? ==> r.value == (OperatorAddresses(reply.body.validators.value).value,
                                       reply.body.pagination.value.nextKey)
  {
    match reply
    case RequestFailed => Failure(RequestError)
    case Received(body) =>
      if body.validators.None? then Failure(DataError)
      else
        match OperatorAddresses(body.validators.value)
        case None => Failure(DataError)
        case Some(addresses) =>
          if body.pagination.None? then Failure(DataError)
          else Success((addresses, body.pagination.value.nextKey))
  }

  /** The outcomes of a validator listing's requests, in request order. */
  function ValidatorOutcomes(replies: seq<Reply<ValidatorsBody>>): seq<PageResult<string>> {
    seq(|replies|, i requires 0 <= i < |replies| => ValidatorsPage(replies[i]))
  }

  /** `prefix` in front of a listing's addresses; an error stays an error. */
  function Prepend(prefix: seq<string>, rest: Result<seq<string>, FetchError>): Result<seq<string>, FetchError> {
    match rest
    case Success(items) => Success(prefix + items)
    case Failure(e) => Failure(e)
  }

  lemma PrependAssociates(a: seq<string>, b: seq<string>, rest: Result<seq<string>, FetchError>)
    ensures Prepend(a, Prepend(b, rest)) == Prepend(a + b, rest)
    ensures Prepend([], rest) == rest
  {
    if rest.Success? {
      assert a + (b + rest.value) == (a + b) + rest.value;
      assert [] + rest.value == rest.value;
    }
  }

  /** The validator listing from the `i`-th request on, as the loop of
      `get_all_validators` runs it: every error propagates. */
  function ValidatorsFrom(outcomes: seq<PageResult<string>>, i: nat): Result<seq<string>, FetchError>
    decreases |outcomes| - i
  {
    if i >= |outcomes| then Failure(RequestError)
    else
      match outcomes[i]
      case Failure(e) => Failure(e)
      case Success((addresses, nextKey)) =>
        if HasNextKey(nextKey) then Prepend(addresses, ValidatorsFrom(outcomes, i + 1))
        else Success(addresses)
  }

  /** A validator listing returns the operator addresses of all its pages,
      concatenated in page order, when its last page is readable and has no
      `next_key`; otherwise it raises the error of its last request, and no
      partial list is returned. */
  lemma {:induction false} ListingOutcome(outcomes: seq<PageResult<string>>, i: nat)
    requires i <= |outcomes|
    decreases |outcomes| - i
    ensures var k := ListingEnd(outcomes, i);
            ValidatorsFrom(outcomes, i) ==
              match OutcomeAt(outcomes, k)
              case Failure(e) => Failure(e)
              case Success(last) => Success(ItemsBetween(outcomes, i, k) + last.0)
  {
    var k := ListingEnd(outcomes, i);
    if Continues(outcomes, i) {
      ListingOutcome(outcomes, i + 1);
      assert k == ListingEnd(outcomes, i + 1);
      var page := outcomes[i].value.0;
      match OutcomeAt(outcomes, k)
      case Failure(e) =>
      case Success(last) =>
        assert ItemsBetween(outcomes, i, k) + last.0 == page + (ItemsBetween(outcomes, i + 1, k) + last.0);
    } else {
      assert k == i;
      match OutcomeAt(outcomes, k)
      case Failure(e) =>
      case Success(last) =>
        assert ItemsBetween(outcomes, i, k) + last.0 == last.0;
    }
  }

  /** `get_all_validators`: follows `next_key` from a request without
      `pagination.key` until a page has none, extending the list page by
      page; any error leaves the loop uncaught. `sent` is the sequence of
      requests it issues. */
  method GetAllValidators(apiUrl: string, replies: seq<Reply<ValidatorsBody>>)
      returns (r: Result<seq<string>, FetchError>, sent: seq<Request>)
    ensures r == ValidatorsFrom(ValidatorOutcomes(replies), 0)
    ensures sent == ListingRequests(ValidatorsEndpoint(apiUrl), ValidatorsPageLimit, ValidatorOutcomes(replies),
                                    ListingEnd(ValidatorOutcomes(replies), 0))
  {
    ghost var outcomes := ValidatorOutcomes(replies);
    var endpoint := ValidatorsEndpoint(apiUrl);
    var validators: seq<string> := [];
    var nextKey: Option<string> := None;
    var i := 0;
    sent := [];
    FollowingStarts(outcomes, endpoint, ValidatorsPageLimit);
    PrependAssociates([], [], ValidatorsFrom(outcomes, 0));
    while true
      invariant Following(outcomes, endpoint, ValidatorsPageLimit, i, sent, nextKey)
      invariant ValidatorsFrom(outcomes, 0) == Prepend(validators, ValidatorsFrom(outcomes, i))
      decreases |replies| - i
    {
      ghost var sentBefore, keyBefore := sent, nextKey;
      sent := sent + [PageRequest(endpoint, ValidatorsPageLimit, nextKey)];
      var page := ValidatorsPage(ReplyAt(replies, i));
      assert page == OutcomeAt(outcomes, i);
      if page.Failure? {
        FollowingStops(outcomes, endpoint, ValidatorsPageLimit, i, sentBefore, keyBefore);
        r := Failure(page.error);
        return;
      }
      PrependAssociates(validators, page.value.0, ValidatorsFrom(outcomes, i + 1));
      validators := validators + page.value.0;
      nextKey := page.value.1;
      if !HasNextKey(nextKey) {
        FollowingStops(outcomes, endpoint, ValidatorsPageLimit, i, sentBefore, keyBefore);
        r := Success(validators);
        return;
      }
      FollowingContinues(outcomes, endpoint, ValidatorsPageLimit, i, sentBefore, keyBefore, sent, nextKey);
      i := i + 1;
    }
  }

  // ---------------------------------------------------------------------
  // Delegations
  // ---------------------------------------------------------------------

  /** An element of `delegation_responses`:
      `delegation.delegator_address` and `balance.amount`, either of which
      may be absent. */
  datatype DelegationEntry = DelegationEntry(delegatorAddress: Option<string>, amount: Option<string>)

  /** A delegation-listing response; either field may be absent. */
  datatype DelegationsBody = DelegationsBody(delegationResponses: Option<seq<DelegationEntry>>, pagination: Option<PaginationField>)

  /** A delegation record: delegator address, validator, exact amount. */
  datatype Delegation = Delegation(address: string, validator: string, amount: int)

  /** The record comprehension of `get_delegators_page`: `None` when an entry
      lacks a field or its amount is not a number. */
  function DelegationRecords(entries: seq<DelegationEntry>, validator: string): (r: Option<seq<Delegation>>)
    ensures r.Some? <==> forall i :: 0 <= i < |entries| ==>
              entries[i].delegatorAddress.Some? && entries[i].amount.Some? && ParseAmount(entries[i].amount.value).Some?
    ensures r.Some? ==> |r.value| == |entries|
    ensures r.Some? ==> forall i :: 0 <= i < |entries| ==>
              r.value[i] == Delegation(entries[i].delegatorAddress.value, validator, ParseAmount(entries[i].amount.value).value)
  {
    if |entries| == 0 then Some([])
    else
      var entry := entries[0];
      match (entry.delegatorAddress, entry.amount, DelegationRecords(entries[1..], validator))
      case (Some(address), Some(text), Some(rest)) =>
        if ParseAmount(text).Some? then Some([Delegation(address, validator, ParseAmount(text).value)] + rest)
        else None
      case _ => None
  }

  /** What one attempt of `get_delegators_page` gives: the page's records and
      its `next_key`, or the error it raises. */
  function ReadDelegationsReply(reply: Reply<DelegationsBody>, validator: string): (r: PageResult<Delegation>)
    ensures reply.RequestFailed? ==> r == Failure(RequestError)
    ensures r.Failure? ==> (r.error == RequestError <==> reply.RequestFailed?)
    ensures r.Success? <==> && reply.Received?
                            && reply.body.delegationResponses.Some? && reply.body.pagination.Some?
                            && DelegationRecords(reply.body.delegationResponses.value, validator).Some?
    ensures r.Success? ==> r.value == (DelegationRecords(reply.body.delegationResponses.value, validator).value,
                                       reply.body.pagination.value.nextKey)
    ensures r.Success? ==> forall d :: d in r.value.0 ==> d.validator == validator
  {
    match reply
    case RequestFailed => Failure(RequestError)
    case Received(body) =>
      if body.delegationResponses.None? then Failure(DataError)
      else
        match DelegationRecords(body.delegationResponses.value, validator)
        case None => Failure(DataError)
        case Some(records) =>
          if body.pagination.None? then Failure(DataError)
          else Success((records, body.pagination.value.nextKey))
  }

  /** `get_delegators_page` under its retry decorator, from the `n`-th
      attempt on (counting from 0); `attempts` are the replies to the
      successive attempts at the same request. Gives the outcome and the
      number of attempts made. */
  function RetryFrom(attempts: seq<Reply<DelegationsBody>>, validator: string, n: nat)
      : (r: (PageResult<Delegation>, nat))
    requires n < MaxRetries
    decreases MaxRetries - n
    ensures n < r.1 <= MaxRetries
  {
    match ReplyAt(attempts, n)
    case RequestFailed =>
      if n + 1 < MaxRetries then RetryFrom(attempts, validator, n + 1)
      else (Failure(RequestError), n + 1)
    case Received(body) => (ReadDelegationsReply(Received(body), validator), n + 1)
  }

  /** `get_delegators_page` with its retry decorator
      (`stop_after_attempt(max_retries)`, `reraise=True`). */
  function GetDelegatorsPage(attempts: seq<Reply<DelegationsBody>>, validator: string)
      : (r: (PageResult<Delegation>, nat))
    ensures 1 <= r.1 <= MaxRetries
  {
    RetryFrom(attempts, validator, 0)
  }

  /** Retrying from attempt `n` skips exactly the failed requests and stops
      at the first received reply, or when the attempts run out. */
  lemma {:induction false} RetryFromStops(attempts: seq<Reply<DelegationsBody>>, validator: string, n: nat)
    requires n < MaxRetries
    decreases MaxRetries - n
    ensures var r := RetryFrom(attempts, validator, n);
            && (forall j :: n <= j < r.1 - 1 ==> ReplyAt(attempts, j).RequestFailed?)
            && (ReplyAt(attempts, r.1 - 1).Received? || r.1 == MaxRetries)
            && r.0 == ReadDelegationsReply(ReplyAt(attempts, r.1 - 1), validator)
  {
    if ReplyAt(attempts, n).RequestFailed? && n + 1 < MaxRetries {
      RetryFromStops(attempts, validator, n + 1);
    }
  }

  /** The retry policy: only a failed request (a `RequestException`) is
      retried, at most `MaxRetries` attempts are made, and the outcome is
      that of the last attempt, its error re-raised unchanged. The page
      fails with a `RequestError` exactly when all attempts failed; a
      received reply that cannot be read fails with a `DataError` at once,
      without a retry. */
  lemma RetryPolicy(attempts: seq<Reply<DelegationsBody>>, validator: string)
    ensures var r := GetDelegatorsPage(attempts, validator);
            && (forall j :: 0 <= j < r.1 - 1 ==> ReplyAt(attempts, j).RequestFailed?)
            && (r.0 == Failure(RequestError) <==> r.1 == MaxRetries && ReplyAt(attempts, r.1 - 1).RequestFailed?)
            && (r.0.Failure? && r.0.error == DataError ==> ReplyAt(attempts, r.1 - 1).Received?)
            && r.0 == ReadDelegationsReply(ReplyAt(attempts, r.1 - 1), validator)
  {
    RetryFromStops(attempts, validator, 0);
  }

  /** `[d for d in page_delegators if d['amount'] > stake_threshold]`. */
  function AboveThreshold(records: seq<Delegation>, threshold: int): seq<Delegation>
  {
    if |records| == 0 then []
    else (if records[0].amount > threshold then [records[0]] else []) + AboveThreshold(records[1..], threshold)
  }

  /** The pre-filter is strict and loses nothing else: a record is kept, as
      many times as it occurs, exactly when its amount exceeds the
      threshold; a record exactly at the threshold is dropped. */
  lemma {:induction false} AboveThresholdKeeps(records: seq<Delegation>, threshold: int, d: Delegation)
    ensures multiset(AboveThreshold(records, threshold))[d] == if d.amount > threshold then multiset(records)[d] else 0
  {
    if |records| > 0 {
      AboveThresholdKeeps(records[1..], threshold, d);
      assert records == [records[0]] + records[1..];
    }
  }

  /** `[d for d in records if d['amount'] > stake_threshold]` distributes
      over concatenation: filtering page by page is filtering the whole. */
  lemma {:induction false} AboveThresholdAppend(a: seq<Delegation>, b: seq<Delegation>, threshold: int)
    ensures AboveThreshold(a + b, threshold) == AboveThreshold(a, threshold) + AboveThreshold(b, threshold)
  {
    if |a| > 0 {
      AboveThresholdAppend(a[1..], b, threshold);
      assert (a + b)[1..] == a[1..] + b;
    } else {
      assert a + b == b;
    }
  }

  /** The outcomes of a validator's delegation page requests, in order: the
      `i`-th is `get_delegators_page`, with its retries, over the replies
      `pages[i]` to its attempts. */
  function DelegationOutcomes(pages: seq<seq<Reply<DelegationsBody>>>, validator: string): seq<PageResult<Delegation>> {
    seq(|pages|, i requires 0 <= i < |pages| => GetDelegatorsPage(pages[i], validator).0)
  }

  /** The `i`-th page request of a listing is answered as `OutcomeAt`
      says; past the end of `pages` it gets no reply on any attempt. */
  lemma DelegationOutcomeAt(pages: seq<seq<Reply<DelegationsBody>>>, validator: string, i: nat)
    ensures GetDelegatorsPage(if i < |pages| then pages[i] else [], validator).0
         == OutcomeAt(DelegationOutcomes(pages, validator), i)
  {
    if i >= |pages| {
      RetryPolicy([], validator);
    }
  }

  /** The records `get_delegators_for_validator` collects from the `i`-th page
      request on, as its loop runs: every error ends the listing and keeps
      what was collected. */
  function DelegationsFrom(outcomes: seq<PageResult<Delegation>>, i: nat, threshold: int): seq<Delegation>
    decreases |outcomes| - i
  {
    if i >= |outcomes| then []
    else
      match outcomes[i]
      case Failure(_) => []
      case Success((records, nextKey)) =>
        AboveThreshold(records, threshold)
          + (if HasNextKey(nextKey) then DelegationsFrom(outcomes, i + 1, threshold) else [])
  }

  /** A page's records carry the validator whose listing was asked for. */
  lemma PageRecordsOfValidator(attempts: seq<Reply<DelegationsBody>>, validator: string, d: Delegation)
    requires GetDelegatorsPage(attempts, validator).0.Success?
    requires d in GetDelegatorsPage(attempts, validator).0.value.0
    ensures d.validator == validator
  {
    RetryPolicy(attempts, validator);
    var reply := ReplyAt(attempts, GetDelegatorsPage(attempts, validator).1 - 1);
    var records := DelegationRecords(reply.body.delegationResponses.value, validator).value;
    var k :| 0 <= k < |records| && records[k] == d;
  }

  /** Every record a listing collects belongs to the validator asked for and
      is strictly above the threshold. */
  lemma {:induction false} DelegationsFromAbove(pages: seq<seq<Reply<DelegationsBody>>>, validator: string, i: nat, threshold: int, d: Delegation)
    requires d in DelegationsFrom(DelegationOutcomes(pages, validator), i, threshold)
    decreases |pages| - i
    ensures d.validator == validator && d.amount > threshold
  {
    var outcomes := DelegationOutcomes(pages, validator);
    match outcomes[i]
    case Success((records, nextKey)) =>
      if d !in AboveThreshold(records, threshold) {
        DelegationsFromAbove(pages, validator, i + 1, threshold, d);
      } else {
        AboveThresholdKeeps(records, threshold, d);
        PageRecordsOfValidator(pages[i], validator, d);
      }
  }

  /** One continuing page: its records above the threshold, then the rest of the listing. */
  lemma DelegationsFromContinues(outcomes: seq<PageResult<Delegation>>, i: nat, threshold: int)
    requires Continues(outcomes, i)
    ensures i < |outcomes|
    ensures DelegationsFrom(outcomes, i, threshold)
         == AboveThreshold(outcomes[i].value.0, threshold) + DelegationsFrom(outcomes, i + 1, threshold)
  {
  }

  /** The last page: what it adds, and the listing ends. */
  lemma DelegationsFromStops(outcomes: seq<PageResult<Delegation>>, i: nat, threshold: int)
    requires !Continues(outcomes, i)
    ensures DelegationsFrom(outcomes, i, threshold) == AboveThreshold(LastItems(outcomes, i), threshold)
  {
  }

  /** The state of the loop of `get_delegators_for_validator` before its
      `i`-th page request: it follows the listing, and what it has
      collected, followed by what the rest of the listing collects, is what
      the whole listing collects. */
  ghost predicate Collecting(outcomes: seq<PageResult<Delegation>>, endpoint: string, threshold: int,
                             i: nat, sent: seq<Request>, nextKey: Option<string>, delegators: seq<Delegation>)
  {
    && Following(outcomes, endpoint, DelegationsPageLimit, i, sent, nextKey)
    && DelegationsFrom(outcomes, 0, threshold) == delegators + DelegationsFrom(outcomes, i, threshold)
  }

  lemma CollectingStarts(outcomes: seq<PageResult<Delegation>>, endpoint: string, threshold: int)
    ensures Collecting(outcomes, endpoint, threshold, 0, [], None, [])
  {
    FollowingStarts(outcomes, endpoint, DelegationsPageLimit);
    assert [] + DelegationsFrom(outcomes, 0, threshold) == DelegationsFrom(outcomes, 0, threshold);
  }

  /** A continuing page: the loop sends its request, adds its records above
      the threshold and takes its `next_key`. */
  lemma CollectingContinues(outcomes: seq<PageResult<Delegation>>, endpoint: string, threshold: int,
                            i: nat, sent: seq<Request>, nextKey: Option<string>, delegators: seq<Delegation>,
                            sent': seq<Request>, nextKey': Option<string>, delegators': seq<Delegation>)
    requires Collecting(outcomes, endpoint, threshold, i, sent, nextKey, delegators)
    requires Continues(outcomes, i)
    requires sent' == sent + [PageRequest(endpoint, DelegationsPageLimit, nextKey)]
    requires nextKey' == OutcomeAt(outcomes, i).value.1
    requires delegators' == delegators + AboveThreshold(OutcomeAt(outcomes, i).value.0, threshold)
    ensures i < |outcomes|
    ensures Collecting(outcomes, endpoint, threshold, i + 1, sent', nextKey', delegators')
  {
    FollowingContinues(outcomes, endpoint, DelegationsPageLimit, i, sent, nextKey, sent', nextKey');
    CollectedContinues(outcomes, threshold, i, delegators, delegators');
  }

  lemma CollectedContinues(outcomes: seq<PageResult<Delegation>>, threshold: int, i: nat,
                           delegators: seq<Delegation>, delegators': seq<Delegation>)
    requires DelegationsFrom(outcomes, 0, threshold) == delegators + DelegationsFrom(outcomes, i, threshold)
    requires Continues(outcomes, i)
    requires delegators' == delegators + AboveThreshold(OutcomeAt(outcomes, i).value.0, threshold)
    ensures DelegationsFrom(outcomes, 0, threshold) == delegators' + DelegationsFrom(outcomes, i + 1, threshold)
  {
    DelegationsFromContinues(outcomes, i, threshold);
    var kept := AboveThreshold(outcomes[i].value.0, threshold);
    assert delegators + (kept + DelegationsFrom(outcomes, i + 1, threshold))
        == (delegators + kept) + DelegationsFrom(outcomes, i + 1, threshold);
  }

  /** The last page: the loop sends its request, adds its records above
      the threshold when it was read and nothing when it failed, and has
      then collected everything and sent every request of the listing. */
  lemma CollectingStops(outcomes: seq<PageResult<Delegation>>, endpoint: string, threshold: int,
                        i: nat, sent: seq<Request>, nextKey: Option<string>, delegators: seq<Delegation>,
                        sent': seq<Request>, delegators': seq<Delegation>)
    requires Collecting(outcomes, endpoint, threshold, i, sent, nextKey, delegators)
    requires !Continues(outcomes, i)
    requires sent' == sent + [PageRequest(endpoint, DelegationsPageLimit, nextKey)]
    requires delegators' == if OutcomeAt(outcomes, i).Failure? then delegators
                            else delegators + AboveThreshold(OutcomeAt(outcomes, i).value.0, threshold)
    ensures delegators' == DelegationsFrom(outcomes, 0, threshold)
    ensures sent' == ListingRequests(endpoint, DelegationsPageLimit, outcomes, ListingEnd(outcomes, 0))
  {
    FollowingStops(outcomes, endpoint, DelegationsPageLimit, i, sent, nextKey);
    DelegationsFromStops(outcomes, i, threshold);
    if OutcomeAt(outcomes, i).Failure? {
      assert delegators + [] == delegators;
    }
  }

  /** Failure tolerance of `get_delegators_for_validator`: it never raises.
      It returns the records above the threshold of every page up to the
      first one that fails or has no `next_key`; a failing page adds nothing
      and the pages before it are kept. */
  lemma {:induction false} DelegationsOutcome(outcomes: seq<PageResult<Delegation>>, i: nat, threshold: int)
    requires i <= |outcomes|
    decreases |outcomes| - i
    ensures var k := ListingEnd(outcomes, i);
            DelegationsFrom(outcomes, i, threshold) ==
              AboveThreshold(ItemsBetween(outcomes, i, k) + LastItems(outcomes, k), threshold)
  {
    var k := ListingEnd(outcomes, i);
    if Continues(outcomes, i) {
      DelegationsFromContinues(outcomes, i, threshold);
      DelegationsOutcome(outcomes, i + 1, threshold);
      assert k == ListingEnd(outcomes, i + 1);
      var head := outcomes[i].value.0;
      var middle := ItemsBetween(outcomes, i + 1, k);
      var tail := LastItems(outcomes, k);
      assert ItemsBetween(outcomes, i, k) == head + middle;
      assert head + middle + tail == head + (middle + tail);
      AboveThresholdAppend(head, middle + tail, threshold);
    } else {
      DelegationsFromStops(outcomes, i, threshold);
      assert ItemsBetween(outcomes, i, k) + LastItems(outcomes, k) == LastItems(outcomes, k);
    }
  }

  /** `get_delegators_for_validator`: follows `next_key` from a request
      without `pagination.key`, keeping the records above the threshold page
      by page; an error from a page request (after its retries) is caught,
      ends the loop, and keeps the records collected so far. `sent` is the
      sequence of page requests it issues (each retried attempt repeats its
      request). */
  method GetDelegatorsForValidator(apiUrl: string, pages: seq<seq<Reply<DelegationsBody>>>, validator: string, threshold: int)
      returns (delegators: seq<Delegation>, sent: seq<Request>)
    ensures delegators == DelegationsFrom(DelegationOutcomes(pages, validator), 0, threshold)
    ensures sent == ListingRequests(DelegationsEndpoint(apiUrl, validator), DelegationsPageLimit,
                                    DelegationOutcomes(pages, validator), ListingEnd(DelegationOutcomes(pages, validator), 0))
  {
    ghost var outcomes := DelegationOutcomes(pages, validator);
    var endpoint := DelegationsEndpoint(apiUrl, validator);
    var nextKey: Option<string> := None;
    var i := 0;
    delegators := [];
    sent := [];
    CollectingStarts(outcomes, endpoint, threshold);
    while true
      invariant Collecting(outcomes, endpoint, threshold, i, sent, nextKey, delegators)
      decreases |pages| - i
    {
      ghost var sentBefore, keyBefore, collectedBefore := sent, nextKey, delegators;
      sent := sent + [PageRequest(endpoint, DelegationsPageLimit, nextKey)];
      var attempts := if i < |pages| then pages[i] else [];
      var outcome := GetDelegatorsPage(attempts, validator).0;
      DelegationOutcomeAt(pages, validator, i);
      if outcome.Failure? {
        // logged: "Failed to get delegators for validator ... after all retries"
        CollectingStops(outcomes, endpoint, threshold, i, sentBefore, keyBefore, collectedBefore, sent, delegators);
        break;
      }
      delegators := delegators + AboveThreshold(outcome.value.0, threshold);
      nextKey := outcome.value.1;
      if !HasNextKey(nextKey) {
        CollectingStops(outcomes, endpoint, threshold, i, sentBefore, keyBefore, collectedBefore, sent, delegators);
        break;
      }
      CollectingContinues(outcomes, endpoint, threshold, i, sentBefore, keyBefore, collectedBefore, sent, nextKey, delegators);
      i := i + 1;
    }
  }
}

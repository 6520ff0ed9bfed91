/** The staking REST API as the snapshot tool sees it.

    The network is not modelled as a server that looks pages up by cursor:
    a listing is given by the replies it receives, in the order of its
    requests (a reply tape). Every property proved holds for every tape, so
    it holds for every server. A request past the end of the tape is
    answered by a failed request, so every listing ends. The requests
    themselves (endpoint, page size, cursor) are returned as a trace, so
    that the cursor protocol can be stated. */
module Pagination {
  import opened Wrappers

  /** The outcome of one HTTP GET: `RequestFailed` stands for every
      `requests.exceptions.RequestException` (connection error, timeout,
      non-success status from `raise_for_status`, undecodable JSON). */
  datatype Reply<B> = RequestFailed | Received(body: B)

  /** What a page fetch can raise: a `RequestException`, the only kind the
      retry policy retries, or anything else raised while reading the JSON
      (`KeyError` for a missing field, `decimal.InvalidOperation` for an
      amount that is not a number). */
  datatype FetchError = RequestError | DataError

  /** The `pagination` object of a response; `next_key` may be absent. */
  datatype PaginationField = PaginationField(nextKey: Option<string>)

  /** One GET request: endpoint, `pagination.limit` and, when present,
      `pagination.key`. */
  datatype Request = Request(endpoint: string, limit: string, key: Option<string>)

  /** Python truthiness of `next_key`: absent, `None` and `""` all end a listing. */
  predicate HasNextKey(nextKey: Option<string>) {
    nextKey.Some? && nextKey.value != ""
  }

  /** The request for one page: `pagination.key` is sent only for a truthy key. */
  function PageRequest(endpoint: string, limit: string, nextKey: Option<string>): (r: Request)
    ensures r.key.Some? <==> HasNextKey(nextKey)
    ensures r.key.Some? ==> r.key == nextKey
  {
    Request(endpoint, limit, if HasNextKey(nextKey) then nextKey else None)
  }

  /** The reply to the `i`-th request of a listing. */
  function ReplyAt<B>(replies: seq<Reply<B>>, i: nat): Reply<B> {
    if i < |replies| then replies[i] else RequestFailed
  }

  /** A page as read: its items and its `next_key`. */
  type Page<T> = (seq<T>, Option<string>)

  /** What reading one page gives: the page, or the error it raises. */
  type PageResult<T> = Result<Page<T>, FetchError>

  /** The outcome of the `i`-th page request of a listing whose outcomes
      are `outcomes`; a request past the end of the tape fails. */
  function OutcomeAt<T>(outcomes: seq<PageResult<T>>, i: nat): PageResult<T> {
    if i < |outcomes| then outcomes[i] else Failure(RequestError)
  }

  /** The listing goes on past page `i`: the page was read and has a truthy
      `next_key`. */
  predicate Continues<T>(outcomes: seq<PageResult<T>>, i: nat) {
    OutcomeAt(outcomes, i).Success? && HasNextKey(OutcomeAt(outcomes, i).value.1)
  }

  /** The index of the last page request of a listing started at `i`: the
      first page that does not continue it. */
  function ListingEnd<T>(outcomes: seq<PageResult<T>>, i: nat): (k: nat)
    requires i <= |outcomes|
    decreases |outcomes| - i
    ensures i <= k <= |outcomes|
    ensures !Continues(outcomes, k)
    ensures forall j :: i <= j < k ==> Continues(outcomes, j)
  {
    if i == |outcomes| || !Continues(outcomes, i) then i else ListingEnd(outcomes, i + 1)
  }

  /** The items of the continuing pages `i .. k-1`, in page order. */
  function ItemsBetween<T>(outcomes: seq<PageResult<T>>, i: nat, k: nat): seq<T>
    requires i <= k
    requires forall j :: i <= j < k ==> Continues(outcomes, j)
    decreases k - i
  {
    if i == k then []
    else
      assert Continues(outcomes, i);
      OutcomeAt(outcomes, i).value.0 + ItemsBetween(outcomes, i + 1, k)
  }

  /** The items of the last page of a listing: none when it failed. */
  function LastItems<T>(outcomes: seq<PageResult<T>>, k: nat): seq<T> {
    match OutcomeAt(outcomes, k)
    case Failure(_) => []
    case Success(page) => page.0
  }

  /** The requests of a listing whose first `k` pages continued it: the first
      without a key, each later one with the `next_key` of the page before. */
  function ListingRequests<T>(endpoint: string, limit: string, outcomes: seq<PageResult<T>>, k: nat): (r: seq<Request>)
    requires forall j :: 0 <= j < k ==> Continues(outcomes, j)
    ensures |r| == k + 1
  {
    if k == 0 then [Request(endpoint, limit, None)]
    else
      assert Continues(outcomes, k - 1);
      ListingRequests(endpoint, limit, outcomes, k - 1) + [Request(endpoint, limit, OutcomeAt(outcomes, k - 1).value.1)]
  }

  /** The cursor protocol: request `j` carries the `next_key` of page
      `j - 1`, and the first request carries none. */
  lemma {:induction false} ListingRequestAt<T>(endpoint: string, limit: string, outcomes: seq<PageResult<T>>, k: nat, j: nat)
    requires forall j :: 0 <= j < k ==> Continues(outcomes, j)
    requires j <= k
    ensures j == 0 ==> ListingRequests(endpoint, limit, outcomes, k)[j] == Request(endpoint, limit, None)
    ensures j > 0 ==> Continues(outcomes, j - 1)
                      && ListingRequests(endpoint, limit, outcomes, k)[j] == Request(endpoint, limit, OutcomeAt(outcomes, j - 1).value.1)
  {
    if j < k {
      ListingRequestAt(endpoint, limit, outcomes, k - 1, j);
    }
  }

  /** The state of a listing loop before its `i`-th page request: pages
      `0 .. i-1` continued the listing, the loop holds the `next_key` of the
      last of them (none at first), and it has sent the first `i` requests
      of `ListingRequests`. */
  ghost predicate Following<T>(outcomes: seq<PageResult<T>>, endpoint: string, limit: string,
                               i: nat, sent: seq<Request>, nextKey: Option<string>)
  {
    && i <= ListingEnd(outcomes, 0)
    && ListingEnd(outcomes, i) == ListingEnd(outcomes, 0)
    && (i == 0 ==> nextKey.None? && sent == [])
    && (i > 0 ==> && Continues(outcomes, i - 1)
                  && nextKey == OutcomeAt(outcomes, i - 1).value.1
                  && sent == ListingRequests(endpoint, limit, outcomes, i - 1))
  }

  /** A listing loop starts without a key and without requests. */
  lemma FollowingStarts<T>(outcomes: seq<PageResult<T>>, endpoint: string, limit: string)
    ensures Following(outcomes, endpoint, limit, 0, [], None)
  {
  }

  /** A continuing page moves the loop on: it has sent its request, it
      takes the page's `next_key`, and the tape has a page left for it. */
  lemma FollowingContinues<T>(outcomes: seq<PageResult<T>>, endpoint: string, limit: string,
                              i: nat, sent: seq<Request>, nextKey: Option<string>,
                              sent': seq<Request>, nextKey': Option<string>)
    requires Following(outcomes, endpoint, limit, i, sent, nextKey)
    requires Continues(outcomes, i)
    requires sent' == sent + [PageRequest(endpoint, limit, nextKey)]
    requires nextKey' == OutcomeAt(outcomes, i).value.1
    ensures i < |outcomes|
    ensures Following(outcomes, endpoint, limit, i + 1, sent', nextKey')
  {
    assert ListingEnd(outcomes, i) == ListingEnd(outcomes, i + 1);
    if i > 0 {
      assert Continues(outcomes, i - 1);
    }
  }

  /** A page that does not continue the listing is its last: the loop has
      then sent exactly the listing's requests. */
  lemma FollowingStops<T>(outcomes: seq<PageResult<T>>, endpoint: string, limit: string,
                          i: nat, sent: seq<Request>, nextKey: Option<string>)
    requires Following(outcomes, endpoint, limit, i, sent, nextKey)
    requires !Continues(outcomes, i)
    ensures i == ListingEnd(outcomes, 0)
    ensures sent + [PageRequest(endpoint, limit, nextKey)] == ListingRequests(endpoint, limit, outcomes, i)
  {
    if i > 0 {
      assert Continues(outcomes, i - 1);
    }
  }
}

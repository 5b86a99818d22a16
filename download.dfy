/**
 * Downloading the image links: `downloadImageBuffer`, its bounded retry
 * loop, and the batches of ten that `processExcelWithImages` runs with
 * `Promise.all`, reporting progress after every finished download.
 */
module Download {
  import opened Wrappers
  import opened Workbook
  import opened Percent

  /** One `axios.get`: the response body, or the message of the error it threw. */
  datatype Attempt = Response(data: Bytes) | Thrown(message: string)

  /**
   * What `downloadImageBuffer` resolves to: `success: true` with the buffer,
   * or `success: false` with the error of the last attempt.
   */
  datatype DownloadResult = Fetched(url: string, buffer: Bytes) | FetchFailed(url: string, error: string)

  /** The network as seen from one call: the outcome of its k-th attempt, counting from 0. */
  type Network = nat -> Attempt

  /** The default `maxRetries`, the one every download of the router uses. */
  const DefaultRetries: int := 3

  /** `concurrencyLimit`: the size of a download batch. */
  const ConcurrencyLimit: nat := 10

  /** The outcome of the retry loop entered at attempt `from`. */
  function FetchFrom(url: string, maxRetries: int, net: Network, from: nat): (r: DownloadResult)
    requires from < maxRetries
    ensures r.url == url
    decreases maxRetries - from
  {
    match net(from)
    case Response(data) => Fetched(url, data)
    case Thrown(m) =>
      if from + 1 >= maxRetries then FetchFailed(url, m) else FetchFrom(url, maxRetries, net, from + 1)
  }

  /**
   * `downloadImageBuffer(url, maxRetries)`; None stands for the `undefined`
   * the function returns when the loop is never entered.
   */
  function Fetch(url: string, maxRetries: int, net: Network): (r: Option<DownloadResult>)
    ensures r.None? <==> maxRetries <= 0
    ensures r.Some? ==> r.value.url == url
  {
    if maxRetries <= 0 then None else Some(FetchFrom(url, maxRetries, net, 0))
  }

  /** The result of `downloadImageBuffer(url)` with the default three attempts. */
  function Downloaded(url: string, net: Network): DownloadResult {
    FetchFrom(url, DefaultRetries, net, 0)
  }

  /** The first k attempts all throw. */
  ghost predicate FailsBefore(net: Network, k: int) {
    forall j: nat | j < k :: net(j).Thrown?
  }

  lemma {:induction false} FirstSuccessFrom(url: string, maxRetries: int, net: Network, from: nat, k: nat)
    requires from <= k < maxRetries && net(k).Response?
    requires forall j: nat | from <= j < k :: net(j).Thrown?
    ensures FetchFrom(url, maxRetries, net, from) == Fetched(url, net(k).data)
    decreases k - from
  {
    if from < k {
      FirstSuccessFrom(url, maxRetries, net, from + 1, k);
    }
  }

  lemma {:induction false} AllFailFrom(url: string, maxRetries: int, net: Network, from: nat)
    requires from < maxRetries
    requires forall j: nat | from <= j < maxRetries :: net(j).Thrown?
    ensures FetchFrom(url, maxRetries, net, from) == FetchFailed(url, net(maxRetries - 1).message)
    decreases maxRetries - from
  {
    if from + 1 < maxRetries {
      AllFailFrom(url, maxRetries, net, from + 1);
    }
  }

  lemma {:induction false} FailureFrom(url: string, maxRetries: int, net: Network, from: nat)
    requires from < maxRetries && FetchFrom(url, maxRetries, net, from).FetchFailed?
    ensures forall j: nat | from <= j < maxRetries :: net(j).Thrown?
    ensures FetchFrom(url, maxRetries, net, from).error == net(maxRetries - 1).message
    decreases maxRetries - from
  {
    if from + 1 < maxRetries {
      FailureFrom(url, maxRetries, net, from + 1);
    }
  }

  lemma {:induction false} SuccessFrom(url: string, maxRetries: int, net: Network, from: nat) returns (k: nat)
    requires from < maxRetries && FetchFrom(url, maxRetries, net, from).Fetched?
    ensures from <= k < maxRetries
    ensures net(k) == Response(FetchFrom(url, maxRetries, net, from).buffer)
    ensures forall j: nat | from <= j < k :: net(j).Thrown?
    decreases maxRetries - from
  {
    if net(from).Response? {
      k := from;
    } else {
      k := SuccessFrom(url, maxRetries, net, from + 1);
    }
  }

  /** The first attempt that succeeds, if it is within the budget, decides the result. */
  lemma FetchSucceedsAtFirstSuccess(url: string, maxRetries: int, net: Network, k: nat)
    requires k < maxRetries && FailsBefore(net, k) && net(k).Response?
    ensures Fetch(url, maxRetries, net) == Some(Fetched(url, net(k).data))
  {
    FirstSuccessFrom(url, maxRetries, net, 0, k);
  }

  /** A success always comes from some attempt within the budget preceded only by failures. */
  lemma FetchSuccessHasAttempt(url: string, maxRetries: int, net: Network) returns (k: nat)
    requires Fetch(url, maxRetries, net).Some? && Fetch(url, maxRetries, net).value.Fetched?
    ensures k < maxRetries && FailsBefore(net, k)
    ensures net(k) == Response(Fetch(url, maxRetries, net).value.buffer)
  {
    k := SuccessFrom(url, maxRetries, net, 0);
  }

  /** Failure is reported, with the last error, exactly when all maxRetries attempts throw. */
  lemma FetchFailsOnlyAfterAllAttempts(url: string, maxRetries: int, net: Network)
    requires maxRetries > 0
    ensures Fetch(url, maxRetries, net).value.FetchFailed? <==> FailsBefore(net, maxRetries)
    ensures FailsBefore(net, maxRetries) ==>
      Fetch(url, maxRetries, net) == Some(FetchFailed(url, net(maxRetries - 1).message))
  {
    if FetchFrom(url, maxRetries, net, 0).FetchFailed? {
      FailureFrom(url, maxRetries, net, 0);
    }
    if FailsBefore(net, maxRetries) {
      AllFailFrom(url, maxRetries, net, 0);
    }
  }

  /**
   * `downloadImageBuffer`: at most maxRetries requests (`attempts` counts
   * them), stopping at the first response.
   */
  method DownloadImageBuffer(url: string, maxRetries: int, net: Network) returns (r: Option<DownloadResult>, attempts: nat)
    ensures r == Fetch(url, maxRetries, net)
    ensures attempts == 0 <==> maxRetries <= 0
    ensures attempts <= maxRetries || attempts == 0
    ensures r.Some? && r.value.Fetched? ==> FailsBefore(net, attempts - 1) && net(attempts - 1) == Response(r.value.buffer)
    ensures r.Some? && r.value.FetchFailed? ==> attempts == maxRetries
  {
    var attempt: nat := 0;
    while attempt < maxRetries
      invariant attempt == 0 || attempt < maxRetries
      invariant FailsBefore(net, attempt)
      invariant attempt < maxRetries ==> FetchFrom(url, maxRetries, net, 0) == FetchFrom(url, maxRetries, net, attempt)
      decreases maxRetries - attempt
    {
      match net(attempt)
      case Response(data) =>
        return Some(Fetched(url, data)), attempt + 1;
      case Thrown(message) =>
        attempt := attempt + 1;
        if attempt >= maxRetries {
          return Some(FetchFailed(url, message)), attempt;
        }
    }
    return None, attempt;
  }

  /** Consecutive slices of at most `size` elements: `s.slice(i, i + size)` for i = 0, size, 2 size, ... */
  function Batches<T>(s: seq<T>, size: nat): (r: seq<seq<T>>)
    requires size > 0
    ensures |s| == 0 <==> r == []
    ensures |r| <= |s|
    decreases |s|
  {
    if |s| == 0 then []
    else if |s| <= size then [s]
    else [s[..size]] + Batches(s[size..], size)
  }

  function Flatten<T>(bs: seq<seq<T>>): seq<T>
    decreases |bs|
  {
    if |bs| == 0 then [] else bs[0] + Flatten(bs[1..])
  }

  /** The batches, put back together in order, are the task list. */
  lemma {:induction false} BatchesFlatten<T>(s: seq<T>, size: nat)
    requires size > 0
    ensures Flatten(Batches(s, size)) == s
    decreases |s|
  {
    if |s| > size {
      BatchesFlatten(s[size..], size);
      assert Batches(s, size)[1..] == Batches(s[size..], size);
      assert s == s[..size] + s[size..];
    } else if |s| > 0 {
      assert Batches(s, size)[1..] == [];
    }
  }

  /** There are ceil(|s| / size) batches: the fewest whose capacity covers s. */
  lemma {:induction false} BatchesCount<T>(s: seq<T>, size: nat)
    requires size > 0
    ensures (|Batches(s, size)| - 1) * size < |s| <= |Batches(s, size)| * size
    ensures |s| == 0 <==> |Batches(s, size)| == 0
    decreases |s|
  {
    if |s| > size {
      BatchesCount(s[size..], size);
      var m := |Batches(s[size..], size)|;
      assert |Batches(s, size)| == m + 1;
      assert (m + 1) * size == m * size + size;
    }
  }

  /** Every batch holds between 1 and size tasks, and all but the last hold exactly size. */
  lemma {:induction false} BatchSizes<T>(s: seq<T>, size: nat)
    requires size > 0
    ensures forall b | 0 <= b < |Batches(s, size)| :: 1 <= |Batches(s, size)[b]| <= size
    ensures forall b | 0 <= b < |Batches(s, size)| - 1 :: |Batches(s, size)[b]| == size
    decreases |s|
  {
    if |s| > size {
      BatchSizes(s[size..], size);
      var bs := Batches(s, size);
      forall b | 1 <= b < |bs|
        ensures bs[b] == Batches(s[size..], size)[b - 1]
      {
      }
    }
  }

  /** Batch b is the slice starting at b * size. */
  lemma {:induction false} BatchAt<T>(s: seq<T>, size: nat, b: nat)
    requires size > 0 && b < |Batches(s, size)|
    ensures b * size < |s|
    ensures Batches(s, size)[b] == s[b * size .. if (b + 1) * size <= |s| then (b + 1) * size else |s|]
    decreases b
  {
    if b > 0 {
      assert |s| > size;
      var rest := s[size..];
      assert Batches(s, size) == [s[..size]] + Batches(rest, size);
      assert Batches(s, size)[b] == Batches(rest, size)[b - 1];
      BatchAt(rest, size, b - 1);
      var lo, hi := (b - 1) * size, if b * size <= |rest| then b * size else |rest|;
      assert size + lo == b * size && size + b * size == (b + 1) * size by {
        MulStep(b, size);
      }
      SuffixSlice(s, size, lo, hi);
    }
  }

  lemma MulStep(b: nat, size: nat)
    requires b > 0
    ensures size + (b - 1) * size == b * size && size + b * size == (b + 1) * size
  {
  }

  lemma SuffixSlice<T>(s: seq<T>, d: nat, lo: nat, hi: nat)
    requires d <= |s| && lo <= hi <= |s| - d
    ensures s[d..][lo..hi] == s[d + lo..d + hi]
  {
  }

  /** Twelve tasks run as a batch of ten followed by a batch of two. */
  lemma TwelveTasks<T>(s: seq<T>)
    requires |s| == 12
    ensures Batches(s, ConcurrencyLimit) == [s[..10], s[10..]]
    ensures |s[..10]| == 10 && |s[10..]| == 2
  {
    assert Batches(s[10..], ConcurrencyLimit) == [s[10..]];
  }

  /**
   * Batch b runs while 10 * b is below the task count, so the loop
   * `i += concurrencyLimit` runs exactly once per batch.
   */
  lemma {:induction false} BatchIndex<T>(s: seq<T>, b: nat)
    ensures b * ConcurrencyLimit < |s| <==> b < |Batches(s, ConcurrencyLimit)|
  {
    BatchesCount(s, ConcurrencyLimit);
    var m := |Batches(s, ConcurrencyLimit)|;
    if b < m {
      MulMonotone(b, m - 1, ConcurrencyLimit);
    } else {
      MulMonotone(m, b, ConcurrencyLimit);
    }
  }

  /** `order` lists each position of a batch of n: the order in which its downloads finish. */
  ghost predicate CompletionOrder(order: seq<nat>, n: nat) {
    && |order| == n
    && (forall j | 0 <= j < n :: order[j] < n)
    && (forall i: nat | i < n :: i in order)
  }

  /**
   * One `Promise.all` over tasks[start..end]: downloads finish in `order`,
   * each bumps the shared counter and reports progress, and the results
   * land in task order whatever the completion order.
   */
  method RunBatch(tasks: seq<string>, start: nat, end: nat, net: nat -> Network, order: seq<nat>, completed: nat)
    returns (results: seq<DownloadResult>, percents: seq<int>, completed': nat)
    requires start <= end <= |tasks| && completed == start
    requires CompletionOrder(order, end - start)
    ensures |results| == end - start && completed' == end
    ensures forall k | 0 <= k < |results| :: results[k] == Downloaded(tasks[start + k], net(start + k))
    ensures |percents| == end - start
    ensures forall j | 0 <= j < |percents| :: percents[j] == DownloadPercent(start + j + 1, |tasks|)
  {
    var n := end - start;
    var slots: seq<Option<DownloadResult>> := seq(n, _ => None);
    percents := [];
    completed' := completed;
    for j := 0 to n
      invariant |slots| == n && completed' == start + j && |percents| == j
      invariant forall i | 0 <= i < n :: slots[i].Some? ==> slots[i].value == Downloaded(tasks[start + i], net(start + i))
      invariant forall i | 0 <= i < n :: i in order[..j] ==> slots[i].Some?
      invariant forall k | 0 <= k < j :: percents[k] == DownloadPercent(start + k + 1, |tasks|)
    {
      var i := order[j];
      var r, _ := DownloadImageBuffer(tasks[start + i], DefaultRetries, net(start + i));
      completed' := completed' + 1;
      percents := percents + [DownloadPercent(completed', |tasks|)];
      slots := slots[i := r];
      assert order[..j + 1] == order[..j] + [i];
    }
    assert order[..n] == order;
    results := [];
    for i := 0 to n
      invariant |results| == i
      invariant forall k | 0 <= k < i :: results[k] == Downloaded(tasks[start + k], net(start + k))
    {
      results := results + [slots[i].value];
    }
  }

  /**
   * The download loop: batch after batch of at most ten tasks, results
   * appended batch by batch. `net(i)` is what the network does for the
   * i-th task and `orders(b)` the completion order within batch b.
   */
  /** `downloadResults.push(...batchResults)` keeps results and reports in task order. */
  lemma AppendBatch(tasks: seq<string>, net: nat -> Network, results: seq<DownloadResult>, percents: seq<int>,
                    br: seq<DownloadResult>, bp: seq<int>, i: nat, end: nat)
    requires i <= end <= |tasks|
    requires |results| == i && |percents| == i && |br| == end - i && |bp| == end - i
    requires forall k | 0 <= k < i :: results[k] == Downloaded(tasks[k], net(k))
    requires forall k | 0 <= k < i :: percents[k] == DownloadPercent(k + 1, |tasks|)
    requires forall k | 0 <= k < |br| :: br[k] == Downloaded(tasks[i + k], net(i + k))
    requires forall j | 0 <= j < |bp| :: bp[j] == DownloadPercent(i + j + 1, |tasks|)
    ensures forall k | 0 <= k < end :: (results + br)[k] == Downloaded(tasks[k], net(k))
    ensures forall k | 0 <= k < end :: (percents + bp)[k] == DownloadPercent(k + 1, |tasks|)
  {
    forall k | i <= k < end
      ensures (results + br)[k] == Downloaded(tasks[k], net(k))
      ensures (percents + bp)[k] == DownloadPercent(k + 1, |tasks|)
    {
      assert (results + br)[k] == br[k - i];
      assert (percents + bp)[k] == bp[k - i];
    }
  }

  method DownloadAll(tasks: seq<string>, net: nat -> Network, orders: nat -> seq<nat>)
    returns (results: seq<DownloadResult>, percents: seq<int>)
    requires forall b | 0 <= b < |Batches(tasks, ConcurrencyLimit)| :: CompletionOrder(orders(b), |Batches(tasks, ConcurrencyLimit)[b]|)
    ensures |results| == |tasks| && |percents| == |tasks|
    ensures forall k | 0 <= k < |tasks| :: results[k] == Downloaded(tasks[k], net(k)) && results[k].url == tasks[k]
    ensures forall k | 0 <= k < |tasks| :: percents[k] == DownloadPercent(k + 1, |tasks|)
  {
    results, percents := [], [];
    var completed := 0;
    var i := 0;
    var b := 0;
    while i < |tasks|
      invariant i == b * ConcurrencyLimit
      invariant completed == if i <= |tasks| then i else |tasks|
      invariant |results| == completed && |percents| == completed
      invariant forall k | 0 <= k < completed :: results[k] == Downloaded(tasks[k], net(k))
      invariant forall k | 0 <= k < completed :: percents[k] == DownloadPercent(k + 1, |tasks|)
      decreases |tasks| - i
    {
      BatchIndex(tasks, b);
      BatchAt(tasks, ConcurrencyLimit, b);
      assert (b + 1) * ConcurrencyLimit == i + ConcurrencyLimit;
      var end := if i + ConcurrencyLimit <= |tasks| then i + ConcurrencyLimit else |tasks|;
      var batchResults, batchPercents;
      batchResults, batchPercents, completed := RunBatch(tasks, i, end, net, orders(b), completed);
      AppendBatch(tasks, net, results, percents, batchResults, batchPercents, i, end);
      results := results + batchResults;
      percents := percents + batchPercents;
      i, b := i + ConcurrencyLimit, b + 1;
    }
  }
}

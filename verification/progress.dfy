/**
 * The specification of the chunked copy loop in HttpClientWithProgress.ProcessContentStream:
 * which reads of the response stream carry data, what ends up in the destination file, and
 * which progress events are raised, as functions of the sequence of read results.
 */
module Progress {
  import opened Wrappers
  import opened Domain

  /** Size of the buffer handed to every ReadAsync call. */
  const BUFFER_SIZE: nat := 8192
  /** A progress event is raised after every REPORT_INTERVAL-th non-empty read. */
  const REPORT_INTERVAL: nat := 10

  /** What one ReadAsync(buffer, 0, 8192) can deliver: at most a buffer's worth of bytes. */
  type ReadResult = s: seq<byte> | |s| <= BUFFER_SIZE

  /** ProgressChangedEventArgs: (total size or 0, bytes so far, rounded percentage). */
  datatype ProgressEvent = ProgressEvent(totalBytesToDownload: nat, bytesDownloaded: nat, progressPercentage: int)

  /**
   * Each element of `stream` is the result of one ReadAsync call, in order. The result is the
   * index of the first zero-length read, or |stream| when every listed read carries data
   * (the stream then reports end of data by returning 0 on the next read).
   */
  function FirstEmptyRead(stream: seq<ReadResult>): (n: nat)
    ensures n <= |stream|
    ensures forall k :: 0 <= k < n ==> |stream[k]| > 0
    ensures n < |stream| ==> |stream[n]| == 0
  {
    if stream == [] || |stream[0]| == 0 then 0 else 1 + FirstEmptyRead(stream[1..])
  }

  /** The reads the copy loop consumes and writes: all of them before the first empty one. */
  function Received(stream: seq<ReadResult>): seq<ReadResult> {
    stream[..FirstEmptyRead(stream)]
  }

  /** The bytes of the chunks, in order. */
  function Concat(chunks: seq<ReadResult>): seq<byte> {
    if chunks == [] then [] else Concat(chunks[..|chunks| - 1]) + chunks[|chunks| - 1]
  }

  /** The running total the loop keeps in totalBytesRead. */
  function ByteCount(chunks: seq<ReadResult>): nat {
    if chunks == [] then 0 else ByteCount(chunks[..|chunks| - 1]) + |chunks[|chunks| - 1]|
  }

  /**
   * Math.Round(read / total * 100) with the default midpoint rule (round half to even),
   * evaluated on exact rationals.
   */
  function RoundedPercent(read: nat, total: nat): (r: int)
    requires total > 0
    ensures 0 <= r
    ensures read <= total ==> r <= 100
    ensures 2 * (read * 100 - r * total) <= total && 2 * (r * total - read * 100) <= total
    ensures 2 * (read * 100 - r * total) == total || 2 * (r * total - read * 100) == total ==> r % 2 == 0
  {
    var n := read * 100;
    var q, rem := n / total, n % total;
    QuotientFacts(n, total, 100);
    if 2 * rem > total || (2 * rem == total && q % 2 == 1) then
      assert (q + 1) * total - n == total - rem;
      q + 1
    else
      assert q * total - n == -rem;
      q
  }

  /**
   * Euclidean division of a non-negative n by a positive d: n is q * d + rem, and q stays
   * at most a bound whenever n does not exceed that bound times d, reaching it only exactly.
   */
  lemma QuotientFacts(n: nat, d: nat, bound: nat)
    requires d > 0
    ensures n == (n / d) * d + n % d && (n / d + 1) * d == (n / d) * d + d
    ensures 0 <= n / d && 0 <= n % d < d
    ensures n <= bound * d ==> n / d <= bound && (n / d == bound ==> n % d == 0)
  {
    var q, rem := n / d, n % d;
    if n <= bound * d {
      assert (q - bound) * d == q * d - bound * d <= 0;
    }
  }

  /** The percentage of an event: 0 without a Content-Length (and for a declared length of 0). */
  function Percentage(read: nat, total: Option<nat>): (p: int)
    ensures 0 <= p
    ensures total.None? || total == Some(0) ==> p == 0
    ensures total.Some? && read <= total.value ==> p <= 100
    ensures total.Some? && total.value > 0 ==> p == RoundedPercent(read, total.value)
  {
    if total.Some? && total.value > 0 then RoundedPercent(read, total.value) else 0
  }

  /** The event TriggerProgressChanged builds for a running total. */
  function EventFor(total: Option<nat>, read: nat): (e: ProgressEvent)
    ensures e.bytesDownloaded == read
    ensures total.Some? ==> e.totalBytesToDownload == total.value
    ensures total.None? ==> e.totalBytesToDownload == 0 && e.progressPercentage == 0
    ensures 0 <= e.progressPercentage
    ensures total.Some? && read <= total.value ==> e.progressPercentage <= 100
    ensures e.progressPercentage == Percentage(read, total)
  {
    ProgressEvent(if total.Some? then total.value else 0, read, Percentage(read, total))
  }

  /** The events raised inside the loop after `count` non-empty reads: one per 10th read. */
  function Checkpoints(total: Option<nat>, stream: seq<ReadResult>, count: nat): seq<ProgressEvent>
    requires count <= |stream|
  {
    seq(count / REPORT_INTERVAL,
        j requires 0 <= j < count / REPORT_INTERVAL =>
          EventFor(total, ByteCount(stream[..REPORT_INTERVAL * (j + 1)])))
  }

  /** All events of one download with a handler subscribed: the checkpoints, then the final one. */
  function ExpectedEvents(total: Option<nat>, stream: seq<ReadResult>): seq<ProgressEvent> {
    Checkpoints(total, stream, FirstEmptyRead(stream)) + [EventFor(total, ByteCount(Received(stream)))]
  }

  // ---------------------------------------------------------------------------------------
  // Lemmas about the copy loop's specification

  /** One more non-empty read adds an event exactly when the read count reaches a multiple of 10. */
  lemma CheckpointsStep(total: Option<nat>, stream: seq<ReadResult>, k: nat)
    requires k < |stream|
    ensures Checkpoints(total, stream, k + 1) ==
            Checkpoints(total, stream, k) +
            (if (k + 1) % REPORT_INTERVAL == 0 then [EventFor(total, ByteCount(stream[..k + 1]))] else [])
  {
    var before, after := Checkpoints(total, stream, k), Checkpoints(total, stream, k + 1);
    if (k + 1) % REPORT_INTERVAL == 0 {
      assert (k + 1) / REPORT_INTERVAL == k / REPORT_INTERVAL + 1;
      assert REPORT_INTERVAL * (k / REPORT_INTERVAL + 1) == k + 1;
      assert after == before + [EventFor(total, ByteCount(stream[..k + 1]))];
    } else {
      assert (k + 1) / REPORT_INTERVAL == k / REPORT_INTERVAL;
      assert after == before;
    }
  }

  /** Taking one more read appends its bytes to the file and its length to the running count. */
  lemma PrefixStep(chunks: seq<ReadResult>, k: nat)
    requires k < |chunks|
    ensures Concat(chunks[..k + 1]) == Concat(chunks[..k]) + chunks[k]
    ensures ByteCount(chunks[..k + 1]) == ByteCount(chunks[..k]) + |chunks[k]|
  {
    assert chunks[..k + 1][..k] == chunks[..k];
  }

  /** The running byte count never decreases as more reads are taken. */
  lemma {:induction false} ByteCountPrefixMonotone(chunks: seq<ReadResult>, a: nat, b: nat)
    requires a <= b <= |chunks|
    ensures ByteCount(chunks[..a]) <= ByteCount(chunks[..b])
  {
    if a < b {
      ByteCountPrefixMonotone(chunks, a, b - 1);
      assert chunks[..b][..b - 1] == chunks[..b - 1];
    }
  }

  /** The file written by the loop is exactly as long as the count the loop reports. */
  lemma {:induction false} ConcatLength(chunks: seq<ReadResult>)
    ensures |Concat(chunks)| == ByteCount(chunks)
  {
    if chunks != [] {
      ConcatLength(chunks[..|chunks| - 1]);
    }
  }

  /** No read contributes more than a buffer's worth of bytes. */
  lemma {:induction false} ByteCountBound(chunks: seq<ReadResult>)
    ensures ByteCount(chunks) <= BUFFER_SIZE * |chunks|
  {
    if chunks != [] {
      ByteCountBound(chunks[..|chunks| - 1]);
    }
  }

  /** With a handler subscribed, n data-carrying reads give exactly n / 10 + 1 events. */
  lemma ExpectedEventCount(total: Option<nat>, stream: seq<ReadResult>)
    ensures |ExpectedEvents(total, stream)| == |Received(stream)| / REPORT_INTERVAL + 1
  {
  }

  /**
   * The j-th in-loop event reports the bytes of the first 10 * (j + 1) reads; the final event
   * reports all received bytes, which is the length of the written file.
   */
  lemma EventsReportBytesSoFar(total: Option<nat>, stream: seq<ReadResult>)
    ensures var events, received := ExpectedEvents(total, stream), Received(stream);
            (forall j :: 0 <= j < |events| - 1 ==>
               REPORT_INTERVAL * (j + 1) <= |received| &&
               events[j].bytesDownloaded == ByteCount(received[..REPORT_INTERVAL * (j + 1)])) &&
            events[|events| - 1].bytesDownloaded == ByteCount(received) == |Concat(received)|
  {
    var events, received := ExpectedEvents(total, stream), Received(stream);
    forall j | 0 <= j < |events| - 1
      ensures REPORT_INTERVAL * (j + 1) <= |received|
      ensures events[j].bytesDownloaded == ByteCount(received[..REPORT_INTERVAL * (j + 1)])
    {
      assert received[..REPORT_INTERVAL * (j + 1)] == stream[..REPORT_INTERVAL * (j + 1)];
    }
    ConcatLength(received);
  }

  /** Byte counts of successive events never decrease. */
  lemma EventBytesNonDecreasing(total: Option<nat>, stream: seq<ReadResult>)
    ensures var events := ExpectedEvents(total, stream);
            forall i, j :: 0 <= i <= j < |events| ==> events[i].bytesDownloaded <= events[j].bytesDownloaded
  {
    var events, n := ExpectedEvents(total, stream), FirstEmptyRead(stream);
    forall i, j | 0 <= i <= j < |events|
      ensures events[i].bytesDownloaded <= events[j].bytesDownloaded
    {
      var a := if i < |events| - 1 then REPORT_INTERVAL * (i + 1) else n;
      var b := if j < |events| - 1 then REPORT_INTERVAL * (j + 1) else n;
      assert events[i].bytesDownloaded == ByteCount(stream[..a]);
      assert events[j].bytesDownloaded == ByteCount(stream[..b]);
      ByteCountPrefixMonotone(stream, a, b);
    }
  }

  /** Without a Content-Length every event reports total 0 and percentage 0; with one, its value. */
  lemma EventTotals(total: Option<nat>, stream: seq<ReadResult>)
    ensures forall e :: e in ExpectedEvents(total, stream) ==>
              e.totalBytesToDownload == (if total.Some? then total.value else 0) &&
              (total.None? ==> e.progressPercentage == 0)
  {
  }

  /** Banker's rounding of read * 100 / total is monotone in `read`. */
  lemma RoundedPercentMonotone(a: nat, b: nat, total: nat)
    requires a <= b && total > 0
    ensures RoundedPercent(a, total) <= RoundedPercent(b, total)
  {
    var qa, ra := a * 100 / total, a * 100 % total;
    var qb, rb := b * 100 / total, b * 100 % total;
    assert a * 100 == qa * total + ra;
    assert b * 100 == qb * total + rb;
    if qb < qa {
      assert (qb + 1) * total <= qa * total by {
        MultiplyMonotone(qb + 1, qa, total);
      }
      assert false;
    }
    if qa == qb {
      assert ra <= rb;
    }
  }

  lemma MultiplyMonotone(x: int, y: int, m: nat)
    requires x <= y
    ensures x * m <= y * m
  {
  }

  /** A download of exactly the declared size finishes at 100 percent. */
  lemma CompleteDownloadIsHundredPercent(total: nat)
    requires total > 0
    ensures RoundedPercent(total, total) == 100
  {
    ExactQuotient(100, total);
  }

  /** Dividing m * t by t leaves m and no remainder. */
  lemma ExactQuotient(m: nat, t: nat)
    requires t > 0
    ensures (t * m) / t == m && (t * m) % t == 0
  {
    var q, r := (t * m) / t, (t * m) % t;
    assert t * m == q * t + r && 0 <= r < t;
    if q < m {
      MultiplyMonotone(q + 1, m, t);
      assert false;
    } else if q > m {
      MultiplyMonotone(m + 1, q, t);
      assert false;
    }
  }

  /** With a declared length, the reported percentages never decrease. */
  lemma PercentagesNonDecreasing(total: Option<nat>, stream: seq<ReadResult>)
    ensures var events := ExpectedEvents(total, stream);
            forall i, j :: 0 <= i <= j < |events| ==> events[i].progressPercentage <= events[j].progressPercentage
  {
    var events := ExpectedEvents(total, stream);
    EventBytesNonDecreasing(total, stream);
    forall i, j | 0 <= i <= j < |events|
      ensures events[i].progressPercentage <= events[j].progressPercentage
    {
      if total.Some? && total.value > 0 {
        RoundedPercentMonotone(events[i].bytesDownloaded, events[j].bytesDownloaded, total.value);
      }
    }
  }
}

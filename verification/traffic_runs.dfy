/** Sequences of calls to the traffic counters, in the order in which they get the lock. */
module TrafficRuns {
  import opened TrafficWindow

  datatype Call = Recording(r: Record) | Viewing(now: Time)

  function AfterCall(buckets: seq<Bucket>, call: Call): seq<Bucket> {
    match call
    case Recording(r) => Recorded(buckets, r)
    case Viewing(now) => Pruned(buckets, now)
  }

  /** The buckets after these calls; there are none at first. */
  function AfterCalls(calls: seq<Call>): seq<Bucket> {
    if calls == [] then [] else AfterCall(AfterCalls(calls[..|calls| - 1]), calls[|calls| - 1])
  }

  /** Call number `k` overfills the buckets that the calls before it leave. */
  predicate OverfillsAt(calls: seq<Call>, k: nat)
    requires k < |calls|
  {
    calls[k].Recording? && Overfills(AfterCalls(calls[..k]), calls[k].r)
  }

  /** There are at most 301 buckets after the first `k` calls. */
  predicate FitsAfter(calls: seq<Call>, k: nat)
    requires k <= |calls|
  {
    |AfterCalls(calls[..k])| <= 301
  }

  lemma NextCall(calls: seq<Call>, k: nat)
    requires k < |calls|
    ensures AfterCalls(calls[..k + 1]) == AfterCall(AfterCalls(calls[..k]), calls[k])
  {
    assert calls[..k + 1][..k] == calls[..k];
  }

  lemma NextFitsIff(calls: seq<Call>, k: nat)
    requires k < |calls| && FitsAfter(calls, k)
    ensures FitsAfter(calls, k + 1) <==> !OverfillsAt(calls, k)
  {
    NextCall(calls, k);
    if calls[k].Recording? {
      BoundPassedIff(AfterCalls(calls[..k]), calls[k].r);
    }
  }

  lemma {:induction false} FitsUpTo(calls: seq<Call>, n: nat)
    requires n <= |calls| && forall k :: 0 <= k < n ==> !OverfillsAt(calls, k)
    ensures FitsAfter(calls, n)
  {
    if n > 0 {
      FitsUpTo(calls, n - 1);
      NextFitsIff(calls, n - 1);
    }
  }

  /** In every sequence of calls, with readings in any order, there are at most 301 buckets after each call if and only
      if no call records into 301 buckets whose first is still in its window and whose last is of another second. */
  lemma BoundHoldsIff(calls: seq<Call>)
    ensures (forall k :: 0 <= k <= |calls| ==> FitsAfter(calls, k))
      <==> forall k :: 0 <= k < |calls| ==> !OverfillsAt(calls, k)
  {
    if forall k :: 0 <= k < |calls| ==> !OverfillsAt(calls, k) {
      forall k | 0 <= k <= |calls| ensures FitsAfter(calls, k) {
        FitsUpTo(calls, k);
      }
    }
    if forall k :: 0 <= k <= |calls| ==> FitsAfter(calls, k) {
      forall k | 0 <= k < |calls| ensures !OverfillsAt(calls, k) {
        assert FitsAfter(calls, k) && FitsAfter(calls, k + 1);
        NextFitsIff(calls, k);
      }
    }
  }

  // ------------------------------------------------------------ failing runs

  function Parity(n: nat): (p: nat)
    ensures p <= 1
  {
    if n == 0 then 0 else 1 - Parity(n - 1)
  }

  function Reading(n: nat): Time {
    Time(Parity(n), 0)
  }

  // Recordings that go back and forth between two seconds.
  function Alternating(n: nat): (calls: seq<Call>)
    ensures |calls| == n
  {
    if n == 0 then [] else Alternating(n - 1) + [Recording(Record(Reading(n), 1, 0))]
  }

  /** Recordings whose readings alternate between two seconds make a bucket each: after 302 of them the bound is
      passed, and there is no other. */
  lemma {:induction false} AlternatingPassesTheBound(n: nat)
    ensures |AfterCalls(Alternating(n))| == n
    ensures n > 0 ==> AfterCalls(Alternating(n))[0].time == Reading(1)
    ensures n > 0 ==> AfterCalls(Alternating(n))[n - 1].time == Reading(n)
  {
    if n > 0 {
      AlternatingPassesTheBound(n - 1);
      NextCall(Alternating(n), n - 1);
      assert Alternating(n)[..n - 1] == Alternating(n - 1) && Alternating(n)[..n] == Alternating(n);
    }
  }

  // Two recordings 301 seconds apart: the second one drops the bucket of the first.
  lemma LaterDropsEarlier(a: Record, b: Record)
    requires Counts(a) && Counts(b) && b.now.sec == a.now.sec + 301
    ensures AfterCalls([Recording(a), Recording(b)]) == [Bucket(Second(b.now), Counted(b.up), Counted(b.down))]
  {
    var calls := [Recording(a), Recording(b)];
    var first := Bucket(Second(a.now), Counted(a.up), Counted(a.down));
    var second := Bucket(Second(b.now), Counted(b.up), Counted(b.down));
    NextCall(calls, 0);
    NextCall(calls, 1);
    assert calls[..0] == [] && calls[..2] == calls;
    assert Recorded([], a) == [first];
    assert Grown([first], b) == [first, second] && [first, second][1..] == [second];
    assert [second] == [first, second][1..] && Stale([first, second], Cutoff(b.now)) == 1;
  }

  lemma OfTwoRecords(a: Record, b: Record, cutoff: Time)
    requires !Before(Second(a.now), cutoff) && !Before(Second(b.now), cutoff)
    ensures Recent([a, b], cutoff) == Add(BytesOf(a), BytesOf(b))
  {
    RecentNext([], a, cutoff);
    RecentNext([a], b, cutoff);
    assert [] + [a] == [a] && [a] + [b] == [a, b];
  }

  lemma OfOneBucket(b: Bucket, cutoff: Time)
    requires !Before(b.time, cutoff)
    ensures InBuckets([b], cutoff) == Bytes(b.up, b.down)
  {
    assert [] + [b] == [b];
    OneMoreBucket([], b, cutoff);
  }

  /** Two recordings 301 seconds apart and then a view that read the clock in the second between: it has the bytes of
      the second recording alone, though its window has both. */
  lemma OlderReadingGetsLess(a: Record, b: Record, now: Time, buckets: seq<Bucket>)
    requires Counts(a) && Counts(b) && b.now.sec == a.now.sec + 301
    requires now.sec == a.now.sec + 300 && now.nano == 0
    requires buckets == AfterCalls([Recording(a), Recording(b)])
    ensures InBuckets(Pruned(buckets, now), Cutoff(now)) == BytesOf(b)
    ensures Recent([a, b], Cutoff(now)) == Add(BytesOf(a), BytesOf(b))
  {
    LaterDropsEarlier(a, b);
    OfTwoRecords(a, b, Cutoff(now));
    NothingStale(buckets, Cutoff(now));
    OfOneBucket(Bucket(Second(b.now), Counted(b.up), Counted(b.down)), Cutoff(now));
  }
}

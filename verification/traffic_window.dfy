/** Byte counters of a terminal session: totals, and a window of one-second buckets that refines the full log. */
module TrafficWindow {

  /** A reading of the clock, as Go keeps it. */
  datatype Time = Time(sec: int, nano: nat)

  predicate Before(a: Time, b: Time) {
    a.sec < b.sec || (a.sec == b.sec && a.nano < b.nano)
  }

  function Second(now: Time): Time {
    now.(nano := 0)
  }

  // Five minutes before.
  function Cutoff(now: Time): Time {
    now.(sec := now.sec - 300)
  }

  datatype Bucket = Bucket(time: Time, up: nat, down: nat)

  /** What was recorded, and when. */
  datatype Record = Record(now: Time, up: int, down: int)

  datatype Bytes = Bytes(up: nat, down: nat)

  function Add(a: Bytes, b: Bytes): Bytes {
    Bytes(a.up + b.up, a.down + b.down)
  }

  // A count that is not positive adds nothing.
  function Counted(n: int): nat {
    if n > 0 then n else 0
  }

  function BytesOf(r: Record): Bytes {
    Bytes(Counted(r.up), Counted(r.down))
  }

  /** The sum over everything recorded. */
  function Total(log: seq<Record>): Bytes {
    if log == [] then Bytes(0, 0) else Add(Total(log[..|log| - 1]), BytesOf(log[|log| - 1]))
  }

  /** The sum over the records of this second or a later one. */
  function Recent(log: seq<Record>, cutoff: Time): Bytes {
    if log == [] then Bytes(0, 0) else
    var before, r := Recent(log[..|log| - 1], cutoff), log[|log| - 1];
    if Before(Second(r.now), cutoff) then before else Add(before, BytesOf(r))
  }

  function InBuckets(buckets: seq<Bucket>, cutoff: Time): Bytes {
    if buckets == [] then Bytes(0, 0) else
    var before, b := InBuckets(buckets[..|buckets| - 1], cutoff), buckets[|buckets| - 1];
    if Before(b.time, cutoff) then before else Add(before, Bytes(b.up, b.down))
  }

  ghost predicate Increasing(buckets: seq<Bucket>) {
    && (forall i :: 0 <= i < |buckets| ==> buckets[i].time.nano == 0)
    && forall i, j :: 0 <= i < j < |buckets| ==> buckets[i].time.sec < buckets[j].time.sec
  }

  predicate AtMost(a: Bytes, b: Bytes) {
    a.up <= b.up && a.down <= b.down
  }

  /** For every cutoff the log is what the buckets and those dropped before say together. */
  ghost predicate Whole(buckets: seq<Bucket>, dropped: seq<Bucket>, log: seq<Record>) {
    forall cutoff :: WholeAt(buckets, dropped, log, cutoff)
  }

  predicate WholeAt(buckets: seq<Bucket>, dropped: seq<Bucket>, log: seq<Record>, cutoff: Time) {
    Recent(log, cutoff) == Add(InBuckets(buckets, cutoff), InBuckets(dropped, cutoff))
  }

  ghost predicate Filled(buckets: seq<Bucket>) {
    forall b <- buckets :: b.up > 0 || b.down > 0
  }

  ghost predicate AllBefore(buckets: seq<Bucket>, cutoff: Time) {
    forall b <- buckets :: Before(b.time, cutoff)
  }

  /** Whole seconds in order, none before the window. */
  ghost predicate IsWindow(buckets: seq<Bucket>, now: Time) {
    UpTo(buckets, now) && NotBefore(buckets, Cutoff(now))
  }

  function Latest(a: Time, b: Time): Time {
    if Before(a, b) then b else a
  }

  ghost predicate UpTo(buckets: seq<Bucket>, now: Time) {
    Increasing(buckets) && forall i :: 0 <= i < |buckets| ==> !Before(now, buckets[i].time)
  }

  ghost predicate NotBefore(buckets: seq<Bucket>, cutoff: Time) {
    forall i :: 0 <= i < |buckets| ==> !Before(buckets[i].time, cutoff)
  }

  /** The buckets after one more record: added to the last one if it is of the same second, else a new one. */
  function Grown(buckets: seq<Bucket>, r: Record): seq<Bucket> {
    if buckets != [] && buckets[|buckets| - 1].time == Second(r.now) then
      var b := buckets[|buckets| - 1];
      buckets[|buckets| - 1 := b.(up := b.up + Counted(r.up), down := b.down + Counted(r.down))]
    else
      buckets + [Bucket(Second(r.now), Counted(r.up), Counted(r.down))]
  }

  // The first bucket from `i` on that is not before the cutoff.
  function StaleFrom(buckets: seq<Bucket>, i: nat, cutoff: Time): (n: nat)
    requires i <= |buckets|
    ensures i <= n <= |buckets|
    ensures forall k :: i <= k < n ==> Before(buckets[k].time, cutoff)
    ensures n < |buckets| ==> !Before(buckets[n].time, cutoff)
    decreases |buckets| - i
  {
    if i == |buckets| || !Before(buckets[i].time, cutoff) then i else StaleFrom(buckets, i + 1, cutoff)
  }

  // The number of buckets at the front that are before the cutoff.
  function Stale(buckets: seq<Bucket>, cutoff: Time): (n: nat)
    ensures n <= |buckets|
    ensures forall i :: 0 <= i < n ==> Before(buckets[i].time, cutoff)
    ensures n < |buckets| ==> !Before(buckets[n].time, cutoff)
  {
    StaleFrom(buckets, 0, cutoff)
  }

  /** The buckets after those before the window have been dropped from the front, up to the first that is not. */
  function Pruned(buckets: seq<Bucket>, now: Time): seq<Bucket> {
    buckets[Stale(buckets, Cutoff(now))..]
  }

  predicate Counts(r: Record) {
    r.up > 0 || r.down > 0
  }

  /** The buckets after a call that records. */
  function Recorded(buckets: seq<Bucket>, r: Record): seq<Bucket> {
    if Counts(r) then Pruned(Grown(buckets, r), r.now) else buckets
  }

  /** There are 301 buckets, the record needs another one, and the first one is still in its window. */
  predicate Overfills(buckets: seq<Bucket>, r: Record) {
    Counts(r) && |buckets| == 301 && buckets[300].time != Second(r.now) && !Before(buckets[0].time, Cutoff(r.now))
  }

  /** The clock is read before the lock is taken, so readings may arrive out of order: `last` is the latest of them,
      `ordered` says that none so far was before one that came earlier, and `dropped` are the buckets given up. */
  class Traffic {
    var up: nat
    var down: nat
    var buckets: seq<Bucket>
    ghost var log: seq<Record>
    ghost var dropped: seq<Bucket>
    ghost var last: Time
    ghost var ordered: bool

    ghost predicate Valid()
      reads this
    {
      && Bytes(up, down) == Total(log)
      && Whole(buckets, dropped, log) && Filled(buckets) && Filled(dropped) && AllBefore(dropped, Cutoff(last))
      && (ordered ==> IsWindow(buckets, last) && |buckets| <= 301)
    }

    constructor (now: Time)
      ensures Valid() && log == [] && buckets == [] && dropped == [] && last == now && ordered
    {
      up, down, buckets, log, dropped, last, ordered := 0, 0, [], [], [], now, true;
      NothingIsWhole();
    }

    /** Adds a record to the log. The buckets pass their bound of 301 exactly if they were full, the record is not of
        the last one's second and the first one is not too old yet; with readings in order that cannot be. */
    method RecordTraffic(now: Time, upstream: int, downstream: int)
      requires Valid()
      modifies this
      ensures Valid()
      ensures var r := Record(now, upstream, downstream);
        && buckets == Recorded(old(buckets), r)
        && (if Counts(r)
            then log == old(log) + [r] && last == Latest(old(last), now)
                 && ordered == (old(ordered) && !Before(now, old(last)))
            else log == old(log) && last == old(last) && ordered == old(ordered) && dropped == old(dropped))
      ensures up == old(up) + (if upstream > 0 then upstream else 0)
      ensures down == old(down) + (if downstream > 0 then downstream else 0)
      ensures old(|buckets|) <= 301 ==>
        (|buckets| > 301 <==> Overfills(old(buckets), Record(now, upstream, downstream)))
      ensures ordered ==> |buckets| <= 301
    {
      ghost var r := Record(now, upstream, downstream);
      if |buckets| <= 301 { BoundPassedIff(buckets, r); }
      if upstream <= 0 && downstream <= 0 {
        return;
      }
      Count(upstream, downstream);
      GrownKeepsWhole(buckets, dropped, log, r);
      if ordered && !Before(now, last) { GrownInOrder(buckets, r, last); }
      TotalNext(log, r);
      buckets := Grow(buckets, now, upstream, downstream);
      log := log + [r];
      Prune(now);
    }

    method Count(upstream: int, downstream: int)
      modifies this`up, this`down
      ensures Bytes(up, down) == Add(Bytes(old(up), old(down)), Bytes(Counted(upstream), Counted(downstream)))
    {
      if upstream > 0 {
        up := up + upstream;
      }
      if downstream > 0 {
        down := down + downstream;
      }
    }

    /** The totals of the whole log; and the bytes of the last five minutes, exactly as the log has them if and only if
        every bucket dropped so far is before the window of this reading. That is so if the reading is not before the
        latest one; an older one gets at least what the log has of the window of the latest reading. */
    method TrafficStatsSnapshot(now: Time) returns (total: Bytes, recent: Bytes)
      requires Valid()
      modifies this
      ensures Valid() && last == Latest(old(last), now) && log == old(log) && buckets == Pruned(old(buckets), now)
      ensures ordered == (old(ordered) && !Before(now, old(last)))
      ensures total == Total(log)
      ensures recent == Recent(log, Cutoff(now)) <==> AllBefore(old(dropped), Cutoff(now))
      ensures !Before(now, old(last)) ==> recent == Recent(log, Cutoff(now))
      ensures Recent(log, Cutoff(now)) == Add(recent, InBuckets(old(dropped), Cutoff(now)))
      ensures AtMost(Recent(log, Cutoff(last)), recent)
      ensures ordered ==> |buckets| <= 301
    {
      ViewMissesDropped(buckets, dropped, log, now);
      ViewHasLatest(buckets, dropped, log, now, last);
      ViewIsExactIff(buckets, dropped, log, now);
      LaterCutoff(dropped, Cutoff(last), Cutoff(now));
      Prune(now);
      total := Bytes(up, down);
      recent := SumRecent(buckets, now);
    }

    // Buckets before the window are dropped from the front, up to the first that is not.
    method Prune(now: Time)
      requires Bytes(up, down) == Total(log) && Whole(buckets, dropped, log)
      requires Filled(buckets) && Filled(dropped) && AllBefore(dropped, Cutoff(last))
      requires ordered && !Before(now, last) ==> UpTo(buckets, now)
      modifies this`buckets, this`dropped, this`last, this`ordered
      ensures Valid() && last == Latest(old(last), now) && ordered == (old(ordered) && !Before(now, old(last)))
      ensures buckets == Pruned(old(buckets), now)
      ensures dropped == old(dropped) + old(buckets)[..Stale(old(buckets), Cutoff(now))]
    {
      PrunedKeepsWhole(buckets, dropped, log, now, last);
      if ordered && !Before(now, last) { PrunedIsWindow(buckets, now); }
      dropped := dropped + buckets[..Stale(buckets, Cutoff(now))];
      buckets := DropStaleBuckets(buckets, now);
      ordered := ordered && !Before(now, last);
      last := Latest(last, now);
      if ordered { WindowIsSmall(buckets, last); }
    }
  }

  method SumRecent(buckets: seq<Bucket>, now: Time) returns (recent: Bytes)
    ensures recent == InBuckets(buckets, Cutoff(now))
  {
    var recentUp: nat, recentDown: nat := 0, 0;
    for i := 0 to |buckets|
      invariant Bytes(recentUp, recentDown) == InBuckets(buckets[..i], Cutoff(now))
    {
      var b := buckets[i];
      assert buckets[..i + 1][..i] == buckets[..i];
      if Before(b.time, Cutoff(now)) {
        continue;
      }
      recentUp, recentDown := recentUp + b.up, recentDown + b.down;
    }
    assert buckets[..|buckets|] == buckets;
    recent := Bytes(recentUp, recentDown);
  }

  method DropStaleBuckets(buckets: seq<Bucket>, now: Time) returns (left: seq<Bucket>)
    ensures left == Pruned(buckets, now)
  {
    var keepFrom := 0;
    while keepFrom < |buckets|
      invariant keepFrom <= |buckets|
      invariant Stale(buckets, Cutoff(now)) == StaleFrom(buckets, keepFrom, Cutoff(now))
    {
      if !Before(buckets[keepFrom].time, Cutoff(now)) {
        break;
      }
      keepFrom := keepFrom + 1;
    }
    assert Stale(buckets, Cutoff(now)) == keepFrom && buckets[0..] == buckets;
    if keepFrom == 0 {
      return buckets;
    }
    if keepFrom >= |buckets| {
      return [];
    }
    left := buckets[keepFrom..];
  }

  method Grow(buckets: seq<Bucket>, now: Time, upstream: int, downstream: int) returns (grown: seq<Bucket>)
    ensures grown == Grown(buckets, Record(now, upstream, downstream))
  {
    var bucketTime := Second(now);
    var lastIndex := |buckets| - 1;
    if lastIndex >= 0 && buckets[lastIndex].time == bucketTime {
      var b := buckets[lastIndex];
      if upstream > 0 {
        b := b.(up := b.up + upstream);
      }
      if downstream > 0 {
        b := b.(down := b.down + downstream);
      }
      grown := buckets[lastIndex := b];
    } else {
      var b := Bucket(bucketTime, 0, 0);
      if upstream > 0 {
        b := b.(up := upstream);
      }
      if downstream > 0 {
        b := b.(down := downstream);
      }
      grown := buckets + [b];
    }
  }

  // ------------------------------------------------------------------ lemmas

  lemma NothingIsWhole()
    ensures Whole([], [], [])
  {
    forall cutoff ensures WholeAt([], [], [], cutoff) {
    }
  }

  /** A record adds to the buckets what it adds to the log, whenever it was read. */
  lemma GrownKeepsWhole(buckets: seq<Bucket>, dropped: seq<Bucket>, log: seq<Record>, r: Record)
    requires Whole(buckets, dropped, log) && Filled(buckets) && Counts(r)
    ensures Whole(Grown(buckets, r), dropped, log + [r]) && Filled(Grown(buckets, r))
  {
    var grown := Grown(buckets, r);
    assert (log + [r])[..|log|] == log;
    forall cutoff ensures WholeAt(grown, dropped, log + [r], cutoff) {
      GrownAdds(buckets, r, cutoff);
      assert WholeAt(buckets, dropped, log, cutoff);
    }
    forall b | b in grown ensures b.up > 0 || b.down > 0 {
      assert b in buckets || b == grown[|grown| - 1];
      if buckets != [] { assert buckets[|buckets| - 1] in buckets; }
    }
  }

  /** From at most 301 buckets a record makes more exactly if it overfills them. */
  lemma BoundPassedIff(buckets: seq<Bucket>, r: Record)
    requires |buckets| <= 301
    ensures |Recorded(buckets, r)| > 301 <==> Overfills(buckets, r)
  {
  }

  lemma GrownInOrder(buckets: seq<Bucket>, r: Record, last: Time)
    requires UpTo(buckets, last) && !Before(r.now, last)
    ensures UpTo(Grown(buckets, r), r.now)
  {
    if buckets != [] { assert !Before(last, buckets[|buckets| - 1].time); }
  }

  lemma GrownAdds(buckets: seq<Bucket>, r: Record, cutoff: Time)
    ensures InBuckets(Grown(buckets, r), cutoff)
      == if Before(Second(r.now), cutoff) then InBuckets(buckets, cutoff)
         else Add(InBuckets(buckets, cutoff), BytesOf(r))
  {
    var grown := Grown(buckets, r);
    if |grown| == |buckets| {
      assert grown[..|buckets| - 1] == buckets[..|buckets| - 1];
    } else {
      assert grown[..|buckets|] == buckets;
    }
  }

  lemma OneMoreBucket(buckets: seq<Bucket>, b: Bucket, cutoff: Time)
    ensures InBuckets(buckets + [b], cutoff)
      == Add(InBuckets(buckets, cutoff), if Before(b.time, cutoff) then Bytes(0, 0) else Bytes(b.up, b.down))
  {
    assert (buckets + [b])[..|buckets|] == buckets;
  }

  lemma AddAssociates(a: Bytes, b: Bytes, c: Bytes)
    ensures Add(Add(a, b), c) == Add(a, Add(b, c))
  {
  }

  lemma LastApart(a: seq<Bucket>, b: seq<Bucket>)
    requires b != []
    ensures b == b[..|b| - 1] + [b[|b| - 1]]
    ensures a + b == (a + b[..|b| - 1]) + [b[|b| - 1]]
  {
  }

  lemma {:induction false} InBucketsConcat(a: seq<Bucket>, b: seq<Bucket>, cutoff: Time)
    ensures InBuckets(a + b, cutoff) == Add(InBuckets(a, cutoff), InBuckets(b, cutoff))
    decreases |b|
  {
    if b == [] {
      assert a + b == a;
    } else {
      var init, last := b[..|b| - 1], b[|b| - 1];
      LastApart(a, b);
      InBucketsConcat(a, init, cutoff);
      OneMoreBucket(init, last, cutoff);
      OneMoreBucket(a + init, last, cutoff);
      AddAssociates(InBuckets(a, cutoff), InBuckets(init, cutoff),
        if Before(last.time, cutoff) then Bytes(0, 0) else Bytes(last.up, last.down));
    }
  }

  lemma {:induction false} NothingMissedIff(dropped: seq<Bucket>, cutoff: Time)
    requires Filled(dropped)
    ensures InBuckets(dropped, cutoff) == Bytes(0, 0) <==> AllBefore(dropped, cutoff)
  {
    if dropped != [] {
      var init, last := dropped[..|dropped| - 1], dropped[|dropped| - 1];
      assert dropped == init + [last] && last in dropped;
      NothingMissedIff(init, cutoff);
    }
  }

  // What a reading drops itself is before its own window.
  lemma NothingStale(buckets: seq<Bucket>, cutoff: Time)
    ensures InBuckets(buckets[Stale(buckets, cutoff)..], cutoff) == InBuckets(buckets, cutoff)
  {
    var n := Stale(buckets, cutoff);
    assert buckets == buckets[..n] + buckets[n..];
    InBucketsConcat(buckets[..n], buckets[n..], cutoff);
    AllStale(buckets[..n], cutoff);
  }

  /** A view returns what the log has of its window, less what was dropped before. */
  lemma ViewMissesDropped(buckets: seq<Bucket>, dropped: seq<Bucket>, log: seq<Record>, now: Time)
    requires Whole(buckets, dropped, log)
    ensures Recent(log, Cutoff(now))
      == Add(InBuckets(Pruned(buckets, now), Cutoff(now)), InBuckets(dropped, Cutoff(now)))
  {
    NothingStale(buckets, Cutoff(now));
    assert WholeAt(buckets, dropped, log, Cutoff(now));
  }

  lemma NothingDroppedIn(buckets: seq<Bucket>, dropped: seq<Bucket>, log: seq<Record>, cutoff: Time)
    requires Whole(buckets, dropped, log) && AllBefore(dropped, cutoff)
    ensures InBuckets(buckets, cutoff) == Recent(log, cutoff)
  {
    AllStale(dropped, cutoff);
    assert WholeAt(buckets, dropped, log, cutoff);
  }

  /** A view returns at least what the log has of the window of the latest reading. */
  lemma ViewHasLatest(buckets: seq<Bucket>, dropped: seq<Bucket>, log: seq<Record>, now: Time, last: Time)
    requires Whole(buckets, dropped, log) && AllBefore(dropped, Cutoff(last))
    ensures AtMost(Recent(log, Cutoff(Latest(last, now))), InBuckets(Pruned(buckets, now), Cutoff(now)))
  {
    NothingStale(buckets, Cutoff(now));
    NothingDroppedIn(buckets, dropped, log, Cutoff(Latest(last, now)));
    EarlierCutoff(buckets, Cutoff(now), Cutoff(Latest(last, now)));
  }

  lemma ViewIsExactIff(buckets: seq<Bucket>, dropped: seq<Bucket>, log: seq<Record>, now: Time)
    requires Whole(buckets, dropped, log) && Filled(dropped)
    ensures InBuckets(Pruned(buckets, now), Cutoff(now)) == Recent(log, Cutoff(now))
      <==> AllBefore(dropped, Cutoff(now))
  {
    NothingStale(buckets, Cutoff(now));
    assert WholeAt(buckets, dropped, log, Cutoff(now));
    NothingMissedIff(dropped, Cutoff(now));
  }

  lemma LaterCutoff(dropped: seq<Bucket>, from: Time, cutoff: Time)
    requires AllBefore(dropped, from)
    ensures !Before(cutoff, from) ==> AllBefore(dropped, cutoff)
  {
  }

  lemma {:induction false} AllStale(buckets: seq<Bucket>, cutoff: Time)
    requires AllBefore(buckets, cutoff)
    ensures InBuckets(buckets, cutoff) == Bytes(0, 0)
  {
    if buckets != [] { AllStale(buckets[..|buckets| - 1], cutoff); }
  }

  /** The totals count every record with its positive bytes. */
  lemma TotalCounts(log: seq<Record>, r: Record)
    ensures Total([]) == Bytes(0, 0)
    ensures Total(log + [r]).up == Total(log).up + (if r.up > 0 then r.up else 0)
    ensures Total(log + [r]).down == Total(log).down + (if r.down > 0 then r.down else 0)
  {
    TotalNext(log, r);
  }

  lemma RecentNext(log: seq<Record>, r: Record, cutoff: Time)
    ensures Recent(log + [r], cutoff)
      == if Before(Second(r.now), cutoff) then Recent(log, cutoff) else Add(Recent(log, cutoff), BytesOf(r))
  {
    assert (log + [r])[..|log|] == log;
  }

  /** A record counts with its positive bytes exactly if its second began no more than 300 seconds before the
      reading. */
  lemma InWindowIff(log: seq<Record>, r: Record, now: Time)
    ensures var (all, before) := (Recent(log + [r], Cutoff(now)), Recent(log, Cutoff(now)));
      if r.now.sec > now.sec - 300 || (r.now.sec == now.sec - 300 && now.nano == 0)
      then all.up == before.up + (if r.up > 0 then r.up else 0)
           && all.down == before.down + (if r.down > 0 then r.down else 0)
      else all == before
  {
    RecentNext(log, r, Cutoff(now));
  }

  lemma TotalNext(log: seq<Record>, r: Record)
    ensures Total(log + [r]) == Add(Total(log), BytesOf(r))
  {
    assert (log + [r])[..|log|] == log;
  }

  lemma {:induction false} EarlierCutoff(buckets: seq<Bucket>, earlier: Time, later: Time)
    requires !Before(later, earlier)
    ensures AtMost(InBuckets(buckets, later), InBuckets(buckets, earlier))
  {
    if buckets != [] { EarlierCutoff(buckets[..|buckets| - 1], earlier, later); }
  }

  lemma Regrouped(stale: Bytes, left: Bytes, dropped: Bytes)
    ensures Add(Add(stale, left), dropped) == Add(left, Add(dropped, stale))
  {
  }

  // Moving buckets from the front of one list to the end of the other leaves every sum over both alone.
  lemma MovedKeepsWhole(stale: seq<Bucket>, left: seq<Bucket>, dropped: seq<Bucket>, log: seq<Record>)
    requires Whole(stale + left, dropped, log)
    ensures Whole(left, dropped + stale, log)
  {
    forall cutoff ensures WholeAt(left, dropped + stale, log, cutoff) {
      assert WholeAt(stale + left, dropped, log, cutoff);
      InBucketsConcat(stale, left, cutoff);
      InBucketsConcat(dropped, stale, cutoff);
      Regrouped(InBuckets(stale, cutoff), InBuckets(left, cutoff), InBuckets(dropped, cutoff));
    }
  }

  lemma DroppedAllBefore(buckets: seq<Bucket>, dropped: seq<Bucket>, now: Time, last: Time)
    requires AllBefore(dropped, Cutoff(last))
    ensures AllBefore(dropped + buckets[..Stale(buckets, Cutoff(now))], Cutoff(Latest(last, now)))
  {
    var n := Stale(buckets, Cutoff(now));
    forall b | b in dropped + buckets[..n] ensures Before(b.time, Cutoff(Latest(last, now))) {
      if b in buckets[..n] {
        var i :| 0 <= i < n && buckets[i] == b;
      } else {
        assert b in dropped;
      }
    }
  }

  /** What is dropped for one reading is before the window of the latest, and otherwise nothing is lost. */
  lemma PrunedKeepsWhole(buckets: seq<Bucket>, dropped: seq<Bucket>, log: seq<Record>, now: Time, last: Time)
    requires Whole(buckets, dropped, log) && Filled(buckets) && Filled(dropped) && AllBefore(dropped, Cutoff(last))
    ensures var all := dropped + buckets[..Stale(buckets, Cutoff(now))];
      && Whole(Pruned(buckets, now), all, log) && Filled(Pruned(buckets, now)) && Filled(all)
      && AllBefore(all, Cutoff(Latest(last, now)))
  {
    var n := Stale(buckets, Cutoff(now));
    assert buckets == buckets[..n] + buckets[n..];
    MovedKeepsWhole(buckets[..n], buckets[n..], dropped, log);
    DroppedAllBefore(buckets, dropped, now, last);
  }

  lemma PrunedIsWindow(buckets: seq<Bucket>, now: Time)
    requires UpTo(buckets, now)
    ensures IsWindow(Pruned(buckets, now), now)
  {
    var left := Pruned(buckets, now);
    if left != [] {
      forall i | 0 <= i < |left| ensures !Before(left[i].time, Cutoff(now)) {
        assert i == 0 || left[0].time.sec < left[i].time.sec;
      }
    }
  }

  lemma {:induction false} Spread(buckets: seq<Bucket>, i: nat)
    requires Increasing(buckets) && i < |buckets|
    ensures buckets[i].time.sec >= buckets[0].time.sec + i
  {
    if i > 0 {
      Spread(buckets, i - 1);
    }
  }

  /** Five minutes of whole seconds, both ends included, are at most 301 buckets. */
  lemma WindowIsSmall(buckets: seq<Bucket>, now: Time)
    requires IsWindow(buckets, now)
    ensures |buckets| <= 301
  {
    if buckets != [] { Spread(buckets, |buckets| - 1); }
  }
}

/** Most-recently-used lists of prompts: touching, normalising, and how the two agree. */
module RecentLists {
  import opened Sequences
  import opened Text

  const RECENT_LIMIT: nat := 30

  /** The list after its prompt has been used once more. */
  function Touch(s: seq<string>, x: string): seq<string> {
    Take([x] + Without(s, x), RECENT_LIMIT)
  }

  /** Every element once, where it first occurs. */
  function First(s: seq<string>): (t: seq<string>)
    ensures |t| <= |s| && forall y :: y in t <==> y in s
  {
    if s == [] then [] else [s[0]] + Without(First(s[1..]), s[0])
  }

  function Trims(s: seq<string>): seq<string> {
    if s == [] then [] else (if Trim(s[0]) == "" then [] else [Trim(s[0])]) + Trims(s[1..])
  }

  // A limit of zero is no limit.
  function Normalised(items: seq<string>, limit: nat): seq<string> {
    var distinct := First(Trims(items));
    if limit > 0 then Take(distinct, limit) else distinct
  }

  ghost predicate Normal(s: seq<string>, limit: nat) {
    && Distinct(s)
    && (limit > 0 ==> |s| <= limit)
    && forall x <- s :: x != "" && Trim(x) == x
  }

  /** The elements in order, skipping blanks and repetitions, until the limit is reached. */
  method NormalizeItems(items: seq<string>, limit: nat) returns (normalized: seq<string>)
    ensures normalized == Normalised(items, limit)
    ensures Normal(normalized, limit)
  {
    normalized := [];
    var seen: set<string> := {};
    for i := 0 to |items|
      invariant normalized == Kept(items, i) && (limit > 0 ==> |normalized| < limit)
      invariant forall x :: x in seen <==> x in normalized
    {
      var trimmed := Trim(items[i]);
      if trimmed != "" && trimmed !in seen {
        normalized := normalized + [trimmed];
        seen := seen + {trimmed};
        if limit > 0 && |normalized| >= limit {
          KeptIsNormalised(items, i + 1, limit);
          return;
        }
      }
    }
    KeptIsNormalised(items, |items|, limit);
  }

  // What the loop has kept after the first `n` items.
  function Kept(items: seq<string>, n: nat): seq<string>
    requires n <= |items|
  {
    if n == 0 then [] else
    var before, x := Kept(items, n - 1), Trim(items[n - 1]);
    if x == "" || x in before then before else before + [x]
  }

  lemma {:induction false} KeptIsFirst(items: seq<string>, n: nat)
    requires n <= |items|
    ensures Kept(items, n) == First(Trims(items[..n]))
  {
    if n > 0 {
      KeptIsFirst(items, n - 1);
      FirstTrimsNext(items, n - 1);
    }
  }

  lemma KeptPrefix(items: seq<string>, n: nat)
    requires n <= |items|
    ensures Kept(items, n) == First(Trims(items[..n])) <= First(Trims(items))
  {
    KeptIsFirst(items, n);
    FirstTrimsPrefix(items, n);
  }

  // Stopping early is right once the limit is reached.
  lemma KeptIsNormalised(items: seq<string>, n: nat, limit: nat)
    requires n <= |items| && (n == |items| || 0 < limit <= |Kept(items, n)|)
    requires limit > 0 ==> |Kept(items, n)| <= limit
    ensures Kept(items, n) == Normalised(items, limit) && Normal(Kept(items, n), limit)
  {
    KeptPrefix(items, n);
    assert items[..|items|] == items;
    NormalisedIsNormal(items, limit);
  }

  lemma FirstTrimsNext(items: seq<string>, i: nat)
    requires i < |items|
    ensures var (before, x) := (First(Trims(items[..i])), Trim(items[i]));
      First(Trims(items[..i + 1])) == if x == "" || x in before then before else before + [x]
  {
    assert items[..i + 1] == items[..i] + [items[i]];
    FirstTrimsSnoc(items[..i], items[i]);
  }

  lemma FirstTrimsSnoc(items: seq<string>, item: string)
    ensures var (before, x) := (First(Trims(items)), Trim(item));
      First(Trims(items + [item])) == if x == "" || x in before then before else before + [x]
  {
    TrimsConcat(items, [item]);
    TrimsOne(item);
    ConcatNil(Trims(items));
    FirstSnoc(Trims(items), Trim(item));
  }

  lemma TrimsOne(item: string)
    ensures Trims([item]) == if Trim(item) == "" then [] else [Trim(item)]
  {
    assert [item][1..] == [];
  }

  lemma FirstTrimsPrefix(items: seq<string>, i: nat)
    requires i <= |items|
    ensures First(Trims(items[..i])) <= First(Trims(items))
  {
    SplitAt(items, i);
    TrimsConcat(items[..i], items[i..]);
    FirstPrefix(Trims(items[..i]), Trims(items[i..]));
  }

  lemma {:induction false} TrimsConcat(a: seq<string>, b: seq<string>)
    ensures Trims(a + b) == Trims(a) + Trims(b)
  {
    if a == [] {
      ConcatNil(b);
      ConcatNil(Trims(b));
    } else {
      CutFirst(a, b, 1);
      TrimsConcat(a[1..], b);
      ConcatAssoc(if Trim(a[0]) == "" then [] else [Trim(a[0])], Trims(a[1..]), Trims(b));
    }
  }

  lemma {:induction false} WithoutConcat(a: seq<string>, b: seq<string>, x: string)
    ensures Without(a + b, x) == Without(a, x) + Without(b, x)
  {
    if a == [] {
      ConcatNil(b);
      ConcatNil(Without(b, x));
    } else {
      CutFirst(a, b, 1);
      WithoutConcat(a[1..], b, x);
      ConcatAssoc([a[0]], Without(a[1..], x), Without(b, x));
    }
  }

  lemma {:induction false} FirstSnoc(s: seq<string>, x: string)
    ensures First(s + [x]) == if x in s then First(s) else First(s) + [x]
  {
    if s != [] {
      CutFirst(s, [x], 1);
      FirstSnoc(s[1..], x);
      HeadAndTail(s);
      WithoutConcat(First(s[1..]), [x], s[0]);
      ConcatAssoc([s[0]], Without(First(s[1..]), s[0]), [x]);
      ConcatNil(Without(First(s[1..]), s[0]));
      WithoutOne(x, s[0]);
    }
  }

  lemma WithoutOne(x: string, y: string)
    ensures Without([x], y) == if x == y then [] else [x]
  {
    assert [x][1..] == [];
  }

  lemma {:induction false} FirstPrefix(a: seq<string>, b: seq<string>)
    ensures First(a) <= First(a + b)
    decreases |b|
  {
    if b == [] {
      ConcatNil(a);
    } else {
      FirstSnoc(a, b[0]);
      FirstPrefix(a + [b[0]], b[1..]);
      HeadAndTail(b);
      ConcatAssoc(a, [b[0]], b[1..]);
    }
  }

  // -------------------------------------------------------------- normal form

  lemma {:induction false} WithoutDistinct(s: seq<string>, x: string)
    requires Distinct(s)
    ensures Distinct(Without(s, x))
  {
    if s != [] {
      DistinctTail(s);
      WithoutDistinct(s[1..], x);
      if s[0] != x { DistinctCons(s[0], Without(s[1..], x)); }
    }
  }

  lemma {:induction false} FirstDistinct(s: seq<string>)
    ensures Distinct(First(s))
  {
    if s != [] {
      FirstDistinct(s[1..]);
      WithoutDistinct(First(s[1..]), s[0]);
      DistinctCons(s[0], Without(First(s[1..]), s[0]));
    }
  }

  lemma {:induction false} WithoutAbsent(s: seq<string>, x: string)
    requires x !in s
    ensures Without(s, x) == s
  {
    if s != [] {
      HeadAndTail(s);
      WithoutAbsent(s[1..], x);
    }
  }

  lemma {:induction false} FirstOfDistinct(s: seq<string>)
    requires Distinct(s)
    ensures First(s) == s
  {
    if s != [] {
      DistinctTail(s);
      FirstOfDistinct(s[1..]);
      WithoutAbsent(s[1..], s[0]);
      HeadAndTail(s);
    }
  }

  lemma {:induction false} TrimsMembers(s: seq<string>)
    ensures forall x <- Trims(s) :: x != "" && Trim(x) == x
  {
    if s != [] {
      TrimIdempotent(s[0]);
      TrimsMembers(s[1..]);
    }
  }

  lemma {:induction false} TrimsOfTrimmed(s: seq<string>)
    requires forall x <- s :: x != "" && Trim(x) == x
    ensures Trims(s) == s
  {
    if s != [] {
      HeadAndTail(s);
      assert s[0] in s && forall x <- s[1..] :: x in s;
      TrimsOfTrimmed(s[1..]);
    }
  }

  lemma NormalisedIsNormal(items: seq<string>, limit: nat)
    ensures Normal(Normalised(items, limit), limit)
  {
    TrimsMembers(items);
    FirstDistinct(Trims(items));
  }

  /** The normaliser leaves exactly the normal lists alone; so normalising twice is normalising once. */
  lemma NormalIffFixed(s: seq<string>, limit: nat)
    ensures Normalised(s, limit) == s <==> Normal(s, limit)
  {
    NormalisedIsNormal(s, limit);
    if Normal(s, limit) {
      TrimsOfTrimmed(s);
      FirstOfDistinct(s);
    }
  }

  /** A normalised list holds what is left of the items that are not blank once they are trimmed, cut at the limit. */
  lemma {:induction false} TrimsAre(items: seq<string>, x: string)
    ensures x in Trims(items) <==> x != "" && exists i :: 0 <= i < |items| && Trim(items[i]) == x
  {
    if items != [] {
      TrimsAre(items[1..], x);
      if x in Trims(items[1..]) {
        var i :| 0 <= i < |items[1..]| && Trim(items[1..][i]) == x;
        assert Trim(items[i + 1]) == x;
      }
      if i :| 0 <= i < |items| && Trim(items[i]) == x { assert i > 0 ==> Trim(items[1..][i - 1]) == x; }
    }
  }

  lemma NormalisedIs(items: seq<string>, limit: nat, x: string)
    ensures x in Normalised(items, 0) <==> x != "" && exists i :: 0 <= i < |items| && Trim(items[i]) == x
    ensures Normalised(items, limit) <= Normalised(items, 0)
    ensures limit > 0 ==>
      |Normalised(items, limit)| == if |Normalised(items, 0)| < limit then |Normalised(items, 0)| else limit
  {
    TrimsAre(items, x);
  }

  /** The order is that of the first occurrences: one more item goes to the end, or nowhere if it is blank or there. */
  lemma NormalisedNext(items: seq<string>, item: string)
    ensures Normalised(items + [item], 0) ==
      if Trim(item) == "" || Trim(item) in Normalised(items, 0) then Normalised(items, 0)
      else Normalised(items, 0) + [Trim(item)]
  {
    FirstTrimsSnoc(items, item);
  }

  // ----------------------------------------------------------- most recent use

  lemma TouchIsNormal(s: seq<string>, x: string)
    requires Normal(s, RECENT_LIMIT) && x != "" && Trim(x) == x
    ensures Normal(Touch(s, x), RECENT_LIMIT)
  {
    WithoutDistinct(s, x);
    DistinctCons(x, Without(s, x));
  }

  /** A touch changes a full or short list alike, unless its prompt already comes first. */
  lemma TouchFixes(s: seq<string>, x: string)
    requires Distinct(s) && |s| <= RECENT_LIMIT
    ensures Touch(s, x) == s <==> s != [] && s[0] == x
  {
    if s != [] && s[0] == x {
      DistinctTail(s);
      WithoutAbsent(s[1..], x);
      HeadAndTail(s);
    } else if s != [] {
      assert Touch(s, x)[0] == x;
    }
  }

  /** The list after using these prompts, the last of them most recently. */
  function Touches(s: seq<string>, used: seq<string>): seq<string> {
    if used == [] then s else Touch(Touches(s, used[..|used| - 1]), used[|used| - 1])
  }

  function Reverse(s: seq<string>): seq<string> {
    if s == [] then [] else [s[|s| - 1]] + Reverse(s[..|s| - 1])
  }

  // Dropping the tail first cannot lose anything that a list shorter by one would show.
  lemma {:induction false} TakeWithout(s: seq<string>, x: string, n: nat)
    requires Distinct(s)
    ensures Take(Without(Take(s, n + 1), x), n) == Take(Without(s, x), n)
  {
    if |s| > n + 1 {
      var rest := s[1..];
      DistinctTail(s);
      assert Take(s, n + 1) == [s[0]] + Take(rest, n) && ([s[0]] + Take(rest, n))[1..] == Take(rest, n);
      if s[0] == x {
        WithoutAbsent(rest, x);
        WithoutAbsent(Take(rest, n), x);
      } else if n > 0 {
        TakeWithout(rest, x, n - 1);
        TakeCons(s[0], Without(Take(rest, n), x), n);
        TakeCons(s[0], Without(rest, x), n);
      }
    }
  }

  lemma TakeCons(x: string, s: seq<string>, n: nat)
    requires n > 0
    ensures Take([x] + s, n) == [x] + Take(s, n - 1)
  {
  }

  /** However often the list has been cut, it is what the whole history gives: the thirty most recently used
      prompts, newest first, then what was there before. */
  lemma {:induction false} TouchesKeepMostRecent(s: seq<string>, used: seq<string>)
    requires Distinct(s) && |s| <= RECENT_LIMIT
    ensures Touches(s, used) == Take(First(Reverse(used) + s), 30)
  {
    if used == [] {
      ConcatNil(s);
      FirstOfDistinct(s);
    } else {
      var before, x := used[..|used| - 1], used[|used| - 1];
      TouchesKeepMostRecent(s, before);
      var history := Reverse(before) + s;
      ConcatAssoc([x], Reverse(before), s);
      assert ([x] + history)[1..] == history;
      FirstDistinct(history);
      TakeWithout(First(history), x, RECENT_LIMIT - 1);
      TakeCons(x, Without(Take(First(history), RECENT_LIMIT), x), RECENT_LIMIT);
      TakeCons(x, Without(First(history), x), RECENT_LIMIT);
    }
  }
}

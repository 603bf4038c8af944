/** Merging scanned sessions batch by batch: one entry for each session id, whatever the batches. */
module SessionDedupe {
  import opened Sequences
  import opened Wrappers

  datatype Summary = Summary(sessionId: string, id: string, lastMessage: Option<int>, started: int,
                             messages: int, assistantMessages: int, filePath: string)

  function Key(s: Summary): string {
    if s.sessionId != "" then s.sessionId else s.id
  }

  /** Whether the candidate replaces an entry with the same key. */
  predicate IsNewer(existing: Summary, candidate: Summary) {
    match (existing.lastMessage, candidate.lastMessage)
    case (None, Some(_)) => true
    case (Some(_), None) => false
    case (Some(e), Some(c)) => if c > e then true else if e > c then false else StartedLater(existing, candidate)
    case (None, None) => StartedLater(existing, candidate)
  }

  predicate StartedLater(existing: Summary, candidate: Summary) {
    if candidate.started > existing.started then true
    else if existing.started > candidate.started then false
    else candidate.messages > existing.messages || candidate.assistantMessages > existing.assistantMessages
  }

  // The entry for a key after more sessions have been seen.
  function Best(so: Option<Summary>, sessions: seq<Summary>, key: string): Option<Summary>
    decreases |sessions|
  {
    if sessions == [] then so else
    var s := sessions[0];
    var next := if Key(s) == key && (so.None? || IsNewer(so.value, s)) then Some(s) else so;
    Best(next, sessions[1..], key)
  }

  function Winner(sessions: seq<Summary>, key: string): Option<Summary> {
    Best(None, sessions, key)
  }

  function Keys(sessions: seq<Summary>): seq<string> {
    if sessions == [] then [] else
    var before, key := Keys(sessions[..|sessions| - 1]), Key(sessions[|sessions| - 1]);
    if key == "" || key in before then before else before + [key]
  }

  ghost predicate Keyed(sessions: seq<Summary>) {
    forall s <- sessions :: Key(s) != ""
  }

  ghost predicate OnePerKey(sessions: seq<Summary>) {
    forall i, j :: 0 <= i < j < |sessions| ==> Key(sessions[i]) != Key(sessions[j])
  }

  /** One entry for each key: the winner among all sessions that have it. */
  ghost predicate Deduped(out: seq<Summary>, sessions: seq<Summary>) {
    && Keyed(out) && OnePerKey(out)
    && forall key :: key != "" ==> Winner(out, key) == Winner(sessions, key)
  }

  /** A list of one or none is returned as it is; otherwise the keys are listed as they first occur. */
  method DedupeBySessionID(sessions: seq<Summary>) returns (out: seq<Summary>)
    ensures |sessions| <= 1 ==> out == sessions
    ensures |sessions| > 1 || Keyed(sessions) ==> Deduped(out, sessions)
    ensures |sessions| > 1 ==> |out| == |Keys(sessions)|
    ensures |sessions| > 1 ==> forall i :: 0 <= i < |out| ==> Key(out[i]) == Keys(sessions)[i]
  {
    if |sessions| <= 1 {
      return sessions;
    }
    var bySessionID: map<string, Summary> := map[];
    var order: seq<string> := [];
    for i := 0 to |sessions|
      invariant order == Keys(sessions[..i]) && IsTable(bySessionID, order, sessions[..i])
    {
      var session := sessions[i];
      var key := Key(session);
      TableNext(bySessionID, order, sessions[..i], session);
      KeysNext(sessions, i);
      if key == "" {
        continue;
      }
      if key in bySessionID {
        if IsNewer(bySessionID[key], session) {
          bySessionID := bySessionID[key := session];
        }
        continue;
      }
      bySessionID := bySessionID[key := session];
      order := order + [key];
    }
    assert sessions[..|sessions|] == sessions;
    out := InOrder(bySessionID, order);
    TableIsDeduped(bySessionID, order, sessions, out);
  }

  method InOrder(bySessionID: map<string, Summary>, order: seq<string>) returns (out: seq<Summary>)
    requires forall key <- order :: key in bySessionID
    ensures |out| == |order| && forall k :: 0 <= k < |order| ==> out[k] == bySessionID[order[k]]
  {
    out := [];
    for i := 0 to |order|
      invariant |out| == i && forall k :: 0 <= k < i ==> out[k] == bySessionID[order[k]]
    {
      out := out + [bySessionID[order[i]]];
    }
  }

  lemma KeysNext(sessions: seq<Summary>, i: nat)
    requires i < |sessions|
    ensures sessions[..i + 1] == sessions[..i] + [sessions[i]]
    ensures var (before, key) := (Keys(sessions[..i]), Key(sessions[i]));
      Keys(sessions[..i + 1]) == if key == "" || key in before then before else before + [key]
  {
    assert sessions[..i + 1][..i] == sessions[..i];
  }

  // What the loop knows: the winner for every key seen, listed once.
  ghost predicate IsTable(table: map<string, Summary>, order: seq<string>, sessions: seq<Summary>) {
    && Distinct(order)
    && (forall key :: key in order <==> key in table)
    && forall key :: if key in table then Key(table[key]) == key != "" && Winner(sessions, key) == Some(table[key])
                     else key != "" ==> Winner(sessions, key) == None
  }

  lemma {:induction false} BestConcat(so: Option<Summary>, a: seq<Summary>, b: seq<Summary>, key: string)
    ensures Best(so, a + b, key) == Best(Best(so, a, key), b, key)
    decreases |a|
  {
    if a == [] {
      ConcatNil(b);
    } else {
      CutFirst(a, b, 1);
      var s := a[0];
      BestConcat(if Key(s) == key && (so.None? || IsNewer(so.value, s)) then Some(s) else so, a[1..], b, key);
    }
  }

  lemma WinnerNext(sessions: seq<Summary>, s: Summary, key: string)
    ensures var so := Winner(sessions, key);
      Winner(sessions + [s], key) == if Key(s) == key && (so.None? || IsNewer(so.value, s)) then Some(s) else so
  {
    BestConcat(None, sessions, [s], key);
    assert [s][1..] == [];
  }

  lemma TableNext(table: map<string, Summary>, order: seq<string>, sessions: seq<Summary>, s: Summary)
    requires IsTable(table, order, sessions)
    ensures var key := Key(s);
      if key == "" || (key in table && !IsNewer(table[key], s)) then IsTable(table, order, sessions + [s])
      else IsTable(table[key := s], if key in table then order else order + [key], sessions + [s])
  {
    var key := Key(s);
    forall k ensures var so := Winner(sessions, k);
      Winner(sessions + [s], k) == if Key(s) == k && (so.None? || IsNewer(so.value, s)) then Some(s) else so
    {
      WinnerNext(sessions, s, k);
    }
    if key !in table { DistinctConcat(order, [key]); }
  }

  lemma {:induction false} WinnerIsMember(sessions: seq<Summary>, key: string)
    ensures Winner(sessions, key).Some? ==>
              Winner(sessions, key).value in sessions && Key(Winner(sessions, key).value) == key
    ensures Winner(sessions, key).None? <==> forall s <- sessions :: Key(s) != key
    decreases |sessions|
  {
    if sessions != [] {
      var init, last := sessions[..|sessions| - 1], sessions[|sessions| - 1];
      assert sessions == init + [last];
      WinnerIsMember(init, key);
      WinnerNext(init, last, key);
    }
  }

  // Where every key occurs once there is no choice.
  lemma OnlyWinner(sessions: seq<Summary>, s: Summary)
    requires OnePerKey(sessions) && s in sessions
    ensures Winner(sessions, Key(s)) == Some(s)
  {
    WinnerIsMember(sessions, Key(s));
  }

  lemma TableIsDeduped(table: map<string, Summary>, order: seq<string>, sessions: seq<Summary>, out: seq<Summary>)
    requires IsTable(table, order, sessions)
    requires |out| == |order| && forall i :: 0 <= i < |out| ==> order[i] in table && out[i] == table[order[i]]
    ensures Deduped(out, sessions) && forall i :: 0 <= i < |out| ==> Key(out[i]) == order[i]
  {
    forall i | 0 <= i < |out| ensures Key(out[i]) == order[i] != "" { }
    forall key | key != "" ensures Winner(out, key) == Winner(sessions, key) {
      WinnerIsMember(out, key);
      if key in table {
        var i :| 0 <= i < |order| && order[i] == key;
        assert out[i] in out;
        OnlyWinner(out, out[i]);
      }
    }
  }

  // ------------------------------------------------------------------- sorting

  /** Whether a session is listed before another: by last message, then by start, the latest first. */
  predicate ListsBefore(left: Summary, right: Summary) {
    match (left.lastMessage, right.lastMessage)
    case (Some(l), Some(r)) => if l != r then l > r else left.started > right.started
    case (Some(_), None) => true
    case (None, Some(_)) => false
    case (None, None) => left.started > right.started
  }

  ghost predicate IsSort(out: seq<Summary>, sessions: seq<Summary>) {
    multiset(out) == multiset(sessions) && ByRecency(out)
  }

  ghost predicate ByRecency(out: seq<Summary>) {
    forall i, j :: 0 <= i < j < |out| ==> !ListsBefore(out[j], out[i])
  }

  lemma SameMembers(a: seq<Summary>, b: seq<Summary>)
    requires multiset(a) == multiset(b)
    ensures forall s :: s in a <==> s in b
  {
    forall s ensures s in a <==> s in b { assert s in a <==> s in multiset(a); assert s in b <==> s in multiset(b); }
  }

  lemma {:induction false} KeyTwice(a: seq<Summary>, i: nat, j: nat)
    requires i < j < |a| && a[i] == a[j]
    ensures multiset(a)[a[i]] >= 2
  {
    assert a == a[..j] + [a[j]] + a[j + 1..];
    assert a[i] in a[..j];
  }

  lemma {:induction false} OnceInMultiset(b: seq<Summary>, s: Summary)
    requires OnePerKey(b)
    ensures multiset(b)[s] <= 1
  {
    if b != [] {
      var init, last := b[..|b| - 1], b[|b| - 1];
      OnceInMultiset(init, s);
      SplitAt(b, |b| - 1);
      if s in init { assert s != last; } else { assert multiset(init)[s] == 0; }
    }
  }

  /** Sorting a list with one entry for each key leaves its winners alone, stable or not. */
  lemma SortKeepsWinners(out: seq<Summary>, sessions: seq<Summary>)
    requires multiset(out) == multiset(sessions) && OnePerKey(sessions)
    ensures OnePerKey(out)
    ensures forall key :: Winner(out, key) == Winner(sessions, key)
  {
    SameMembers(out, sessions);
    forall i, j | 0 <= i < j < |out| ensures Key(out[i]) != Key(out[j]) {
      assert out[i] in sessions && out[j] in sessions;
      if out[i] == out[j] {
        KeyTwice(out, i, j);
        OnceInMultiset(sessions, out[i]);
      }
    }
    forall key ensures Winner(out, key) == Winner(sessions, key) {
      WinnerIsMember(out, key);
      WinnerIsMember(sessions, key);
      if Winner(out, key).Some? { OnlyWinner(sessions, Winner(out, key).value); }
    }
  }

  // ------------------------------------------------------- batch after batch

  class ScanState {
    var sessions: seq<Summary>

    constructor ()
      ensures sessions == []
    {
      sessions := [];
    }

    /** One scanned batch; `sort` is the library's sort. */
    method UpdateScanProgress(newSessions: seq<Summary>, sort: seq<Summary> -> seq<Summary>)
      requires Keyed(newSessions) && Keyed(sessions)
      requires forall s :: IsSort(sort(s), s)
      modifies this
      ensures Merged(sessions, old(sessions), newSessions) && Keyed(sessions)
      ensures ByRecency(sessions)
    {
      var all := sessions + newSessions;
      assert Keyed(all);
      var deduped := DedupeBySessionID(all);
      sessions := sort(deduped);
      assert IsSort(sessions, deduped);
      SortKeepsWinners(sessions, deduped);
      SameMembers(sessions, deduped);
    }
  }

  ghost predicate Merged(after: seq<Summary>, before: seq<Summary>, batch: seq<Summary>) {
    Deduped(after, before + batch) && ByRecency(after)
  }

  function Flatten(batches: seq<seq<Summary>>): seq<Summary> {
    if batches == [] then [] else Flatten(batches[..|batches| - 1]) + batches[|batches| - 1]
  }

  ghost predicate Scanned(states: seq<seq<Summary>>, batches: seq<seq<Summary>>) {
    && |states| == |batches| + 1 && states[0] == []
    && forall i :: 0 <= i < |batches| ==> Merged(states[i + 1], states[i], batches[i])
  }

  /** However the sessions are split into batches, the list after the last one has for each id the same entry that
      removing duplicates from all of them at once would leave. */
  lemma {:induction false} BatchesDontMatter(states: seq<seq<Summary>>, batches: seq<seq<Summary>>)
    requires Scanned(states, batches)
    ensures Deduped(states[|batches|], Flatten(batches))
  {
    var n := |batches|;
    if n > 0 {
      BatchesDontMatter(states[..n], batches[..n - 1]);
      var before := Flatten(batches[..n - 1]);
      assert states[..n][n - 1] == states[n - 1] && Deduped(states[n - 1], before);
      assert Merged(states[n], states[n - 1], batches[n - 1]);
      forall key | key != "" ensures Winner(states[n], key) == Winner(Flatten(batches), key) {
        BestConcat(None, states[n - 1], batches[n - 1], key);
        BestConcat(None, before, batches[n - 1], key);
        assert Winner(states[n - 1], key) == Winner(before, key);
      }
    }
  }

  /** So two ways of scanning the same sessions in the same order end with the same entries. */
  lemma SameEntries(a: seq<Summary>, b: seq<Summary>, sessions: seq<Summary>)
    requires Deduped(a, sessions) && Deduped(b, sessions)
    ensures forall s :: s in a <==> s in b
  {
    forall s ensures s in a <==> s in b {
      if s in a { OnlyWinner(a, s); WinnerIsMember(b, Key(s)); }
      if s in b { OnlyWinner(b, s); WinnerIsMember(a, Key(s)); }
    }
  }

  // -------------------------------------------------------------- the newest

  // Compares as the last message and the start do; message counts play no part.
  predicate Later(a: Summary, b: Summary) {
    match (a.lastMessage, b.lastMessage)
    case (Some(x), Some(y)) => x > y || (x == y && a.started > b.started)
    case (Some(_), None) => true
    case (None, Some(_)) => false
    case (None, None) => a.started > b.started
  }

  lemma {:induction false} BestIsLatest(so: Option<Summary>, sessions: seq<Summary>, key: string)
    ensures Best(so, sessions, key).Some? ==>
      && (so.Some? ==> !Later(so.value, Best(so, sessions, key).value))
      && forall s <- sessions :: Key(s) == key ==> !Later(s, Best(so, sessions, key).value)
    decreases |sessions|
  {
    if sessions != [] {
      var s := sessions[0];
      var next := if Key(s) == key && (so.None? || IsNewer(so.value, s)) then Some(s) else so;
      BestIsLatest(next, sessions[1..], key);
      HeadAndTail(sessions);
    }
  }

  /** No session with the same id has a later last message, or the same one and a later start. */
  lemma WinnerIsLatest(sessions: seq<Summary>, s: Summary)
    requires s in sessions
    ensures Winner(sessions, Key(s)).Some? && !Later(s, Winner(sessions, Key(s)).value)
  {
    WinnerIsMember(sessions, Key(s));
    BestIsLatest(None, sessions, Key(s));
  }

  /** Among sessions with equal times two can each count as newer than the other, so that the order they are scanned
      in decides: one has more messages, the other more of them from the assistant. */
  lemma EachNewerThanTheOther(a: Summary, b: Summary)
    ensures IsNewer(a, b) && IsNewer(b, a) <==>
      a.lastMessage == b.lastMessage && a.started == b.started
      && ((b.messages > a.messages && a.assistantMessages > b.assistantMessages)
          || (a.messages > b.messages && b.assistantMessages > a.assistantMessages))
    ensures IsNewer(a, b) && IsNewer(b, a) && Key(a) == Key(b) ==>
      Winner([a, b], Key(a)) == Some(b) && Winner([b, a], Key(a)) == Some(a)
  {
    assert [a, b] == [a] + [b] && [b, a] == [b] + [a];
    WinnerNext([], a, Key(a));
    WinnerNext([], b, Key(a));
    assert [] + [a] == [a] && [] + [b] == [b];
    WinnerNext([a], b, Key(a));
    WinnerNext([b], a, Key(a));
  }

  /** One of two sessions has two messages, one of them from the assistant; the other has one and two of them: the
      entry of their id is the one scanned last. */
  lemma ScanOrderDecides(id: string, started: int)
    ensures var a, b := Summary(id, id, None, started, 2, 1, "a"), Summary(id, id, None, started, 1, 2, "b");
      Winner([a, b], id) == Some(b) && Winner([b, a], id) == Some(a)
  {
    EachNewerThanTheOther(Summary(id, id, None, started, 2, 1, "a"), Summary(id, id, None, started, 1, 2, "b"));
  }

  /** Ahead by its last message, else by its start, else by its counts, of which none is behind. */
  predicate Ahead(s: Summary, t: Summary) {
    || (s.lastMessage.Some? && t.lastMessage.None?)
    || (s.lastMessage.Some? && t.lastMessage.Some? && s.lastMessage.value > t.lastMessage.value)
    || (s.lastMessage == t.lastMessage
        && (s.started > t.started
            || (s.started == t.started && s.messages >= t.messages && s.assistantMessages >= t.assistantMessages
                && (s.messages > t.messages || s.assistantMessages > t.assistantMessages))))
  }

  lemma AheadIsNewer(s: Summary, t: Summary)
    requires Ahead(s, t)
    ensures IsNewer(t, s) && !IsNewer(s, t)
  {
  }

  /** A session that is ahead of all others with its id is the entry, wherever it is scanned. */
  lemma {:induction false} AheadWins(sessions: seq<Summary>, s: Summary)
    requires s in sessions && forall t <- sessions :: Key(t) == Key(s) && t != s ==> Ahead(s, t)
    ensures Winner(sessions, Key(s)) == Some(s)
    decreases |sessions|
  {
    var init, last := sessions[..|sessions| - 1], sessions[|sessions| - 1];
    assert sessions == init + [last];
    WinnerNext(init, last, Key(s));
    WinnerIsMember(init, Key(s));
    if s in init { AheadWins(init, s); }
    if Key(last) == Key(s) && last != s { AheadIsNewer(s, last); }
    var so := Winner(init, Key(s));
    if so.Some? && so.value != s { AheadIsNewer(s, so.value); }
    if last == s && so == Some(s) && IsNewer(s, s) { assert Winner(sessions, Key(s)) == Some(s); }
  }

  /** A sorted list goes from recent to old: sessions without a last message come last, and equal times of the last
      message leave the decision to the start. */
  lemma SortedByRecency(out: seq<Summary>, i: nat, j: nat)
    requires ByRecency(out) && i < j < |out|
    ensures out[i].lastMessage.None? ==> out[j].lastMessage.None?
    ensures out[i].lastMessage.Some? && out[j].lastMessage.Some? ==>
      out[i].lastMessage.value >= out[j].lastMessage.value
    ensures out[i].lastMessage == out[j].lastMessage ==> out[i].started >= out[j].started
  {
    assert !ListsBefore(out[j], out[i]);
  }

  /** The ids of the entries: each that is not blank, once. */
  lemma {:induction false} KeysAre(sessions: seq<Summary>)
    ensures Distinct(Keys(sessions))
    ensures forall key :: key in Keys(sessions) <==> key != "" && exists s <- sessions :: Key(s) == key
  {
    if sessions != [] {
      var init, last := sessions[..|sessions| - 1], sessions[|sessions| - 1];
      KeysAre(init);
      assert sessions == init + [last];
      if Key(last) != "" && Key(last) !in Keys(init) { DistinctConcat(Keys(init), [Key(last)]); }
    }
  }

  /** They are in the order of their first occurrence: further sessions only add to the end. */
  lemma {:induction false} KeysGrow(sessions: seq<Summary>, more: seq<Summary>)
    ensures Keys(sessions) <= Keys(sessions + more)
    decreases |more|
  {
    if more == [] {
      ConcatNil(sessions);
    } else {
      KeysGrow(sessions, more[..|more| - 1]);
      assert (sessions + more)[..|sessions + more| - 1] == sessions + more[..|more| - 1];
    }
  }

  /** A session goes by its session id, or by its own id if it has none, or has no entry if it has neither. */
  lemma EntriesGoBy(a: Summary, b: Summary)
    ensures a.sessionId == b.sessionId != "" ==> Keys([a, b]) == [a.sessionId]
    ensures a.sessionId == b.sessionId == "" && a.id == b.id != "" ==> Keys([a, b]) == [a.id]
    ensures a.sessionId == "" && a.id == "" ==> Keys([a]) == []
    ensures a.sessionId != b.sessionId && a.sessionId != "" && b.sessionId != "" ==>
      Keys([a, b]) == [a.sessionId, b.sessionId]
  {
    assert [a, b][..1] == [a] && [a][..0] == [];
    assert Keys([a]) == if Key(a) == "" then [] else [Key(a)];
  }
}

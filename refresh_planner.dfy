/**
 * `find_next_safe_refresh_time`: given the stored race starts and the current
 * instant, either "safe to refresh now" or the first instant after which a
 * refresh cannot collide with a race start.
 */
module RefreshPlanner {
  import opened Wrappers
  import opened Models

  /** No race may start within this long after a refresh begins: three minutes. */
  const SAFETY_BUFFER_MS: int := 180_000

  /** How long a race and its scrape are assumed to keep the system busy: ten minutes. */
  const BUSY_MS: int := 600_000

  /** Only races starting within the next 24 hours are considered. */
  const HORIZON_MS: int := 86_400_000

  const DAY_MS: int := 86_400_000
  const HOUR_MS: int := 3_600_000

  datatype Plan = SafeNow | RefreshAt(at: Instant)

  predicate Sorted(s: seq<Instant>) {
    forall i, j :: 0 <= i < j < |s| ==> s[i] <= s[j]
  }

  predicate InWindow(x: Instant, now: Instant) {
    now < x <= now + HORIZON_MS
  }

  /** The starts inside `(now, now + 24h]`, every occurrence kept. */
  function InHorizon(times: seq<Instant>, now: Instant): seq<Instant> {
    if times == [] then []
    else InHorizon(times[..|times| - 1], now) + if InWindow(times[|times| - 1], now) then [times[|times| - 1]] else []
  }

  /** Exactly the starts inside the window are kept, each as often as stored. */
  lemma {:induction false} InHorizonCounts(times: seq<Instant>, now: Instant)
    ensures var r := InHorizon(times, now);
      forall x :: multiset(r)[x] == if InWindow(x, now) then multiset(times)[x] else 0
  {
    if times != [] {
      var init := times[..|times| - 1];
      assert times == init + [times[|times| - 1]];
      InHorizonCounts(init, now);
    }
  }

  function Insert(x: Instant, s: seq<Instant>): (r: seq<Instant>)
    requires Sorted(s)
    ensures Sorted(r) && multiset(r) == multiset(s) + multiset{x}
  {
    if s == [] || x <= s[0] then [x] + s
    else
      var rest := Insert(x, s[1..]);
      InsertHead(x, s, rest);
      [s[0]] + rest
  }

  lemma InsertHead(x: Instant, s: seq<Instant>, rest: seq<Instant>)
    requires Sorted(s) && s != [] && s[0] < x
    requires Sorted(rest) && multiset(rest) == multiset(s[1..]) + multiset{x}
    ensures Sorted([s[0]] + rest) && multiset([s[0]] + rest) == multiset(s) + multiset{x}
  {
    assert s == [s[0]] + s[1..];
    forall k | 0 <= k < |rest| ensures s[0] <= rest[k] {
      assert rest[k] in multiset(rest);
    }
  }

  /** `.order_by(Race.race_time)`: the same starts, ascending. */
  function SortAsc(s: seq<Instant>): (r: seq<Instant>)
    ensures Sorted(r) && multiset(r) == multiset(s)
  {
    if s == [] then []
    else
      assert s == [s[0]] + s[1..];
      Insert(s[0], SortAsc(s[1..]))
  }

  /**
   * The query result: sorted, and exactly the stored starts inside
   * `(now, now + 24h]`, as many times as stored.
   */
  function Candidates(times: seq<Instant>, now: Instant): (s: seq<Instant>)
    ensures Sorted(s)
    ensures forall x :: multiset(s)[x] == if InWindow(x, now) then multiset(times)[x] else 0
  {
    InHorizonCounts(times, now);
    SortAsc(InHorizon(times, now))
  }

  /** The gap after race `i` of the sorted list is long enough: the next start is at least three minutes after its busy end. */
  predicate Qualifies(s: seq<Instant>, i: nat) {
    i + 1 < |s| && s[i + 1] - (s[i] + BUSY_MS) >= SAFETY_BUFFER_MS
  }

  /**
   * The loop from index `i` on: the busy end of the first race with a
   * qualifying gap, or of the last race. Whatever it returns is the busy end
   * of one of the races it walked over.
   */
  function Walk(s: seq<Instant>, i: nat): (r: Option<Instant>)
    requires i <= |s|
    ensures r.Some? ==> exists j :: i <= j < |s| && r.value == s[j] + BUSY_MS
    decreases |s| - i
  {
    if i == |s| then None
    else if i + 1 < |s| then
      if s[i + 1] - (s[i] + BUSY_MS) >= SAFETY_BUFFER_MS then Some(s[i] + BUSY_MS) else Walk(s, i + 1)
    else Some(s[i] + BUSY_MS)
  }

  /** The loop returns at index `j`: the first qualifying gap from `i` on, or else the last race. */
  lemma {:induction false} WalkResult(s: seq<Instant>, i: nat) returns (j: nat)
    requires i < |s|
    ensures i <= j < |s| && Walk(s, i) == Some(s[j] + BUSY_MS)
    ensures Qualifies(s, j) || j == |s| - 1
    ensures forall k :: i <= k < j ==> !Qualifies(s, k)
    decreases |s| - i
  {
    if Qualifies(s, i) || i == |s| - 1 {
      j := i;
    } else {
      j := WalkResult(s, i + 1);
    }
  }

  /** `now.replace(hour=1, minute=0, second=0, microsecond=0) + 1 day`: 01:00 UTC of the next day. */
  function Tomorrow(now: Instant): (r: Instant)
    ensures now + HOUR_MS < r <= now + DAY_MS + HOUR_MS
    ensures r % DAY_MS == HOUR_MS
  {
    now - now % DAY_MS + DAY_MS + HOUR_MS
  }

  /** The decision on the candidates: when they are sorted, "safe now" exactly when none starts within three minutes. */
  function PlanFor(s: seq<Instant>, now: Instant): (p: Plan)
    ensures Sorted(s) ==> (p.SafeNow? <==> forall k :: 0 <= k < |s| ==> s[k] > now + SAFETY_BUFFER_MS)
  {
    if s == [] then SafeNow
    else if s[0] > now + SAFETY_BUFFER_MS then SafeNow
    else
      match Walk(s, 0)
      case Some(t) => RefreshAt(t)
      case None => RefreshAt(Tomorrow(now))
  }

  /**
   * `find_next_safe_refresh_time` over the starts of the stored races. It is
   * "safe now" exactly when no stored race starts in `(now, now + 3 min]`; a
   * race starting at exactly now + 3 min already forces a delay.
   */
  function FindNextSafeRefreshTime(times: seq<Instant>, now: Instant): (p: Plan)
    ensures p == SafeNow <==> forall i :: 0 <= i < |times| ==> !(now < times[i] <= now + SAFETY_BUFFER_MS)
  {
    ClearOfCandidates(times, now);
    PlanFor(Candidates(times, now), now)
  }

  /** No candidate starts within three minutes exactly when no stored race starts in `(now, now + 3 min]`. */
  lemma ClearOfCandidates(times: seq<Instant>, now: Instant)
    ensures var s := Candidates(times, now);
      (forall k :: 0 <= k < |s| ==> s[k] > now + SAFETY_BUFFER_MS) <==>
      forall i :: 0 <= i < |times| ==> !(now < times[i] <= now + SAFETY_BUFFER_MS)
  {
    var s := Candidates(times, now);
    if exists i :: 0 <= i < |times| && now < times[i] <= now + SAFETY_BUFFER_MS {
      var i :| 0 <= i < |times| && now < times[i] <= now + SAFETY_BUFFER_MS;
      InCandidates(times, now, times[i]);
    } else {
      forall k | 0 <= k < |s| ensures s[k] > now + SAFETY_BUFFER_MS {
        InCandidates(times, now, s[k]);
        var i :| 0 <= i < |times| && times[i] == s[k];
      }
    }
  }

  /** With at least one candidate the loop always returns, so the "tomorrow" fallback is dead code. */
  lemma FallbackUnreachable(s: seq<Instant>)
    requires s != []
    ensures Walk(s, 0).Some?
  {
    var _ := WalkResult(s, 0);
  }

  lemma InCandidates(times: seq<Instant>, now: Instant, x: Instant)
    ensures x in Candidates(times, now) <==> x in times && InWindow(x, now)
  {
    assert x in Candidates(times, now) <==> multiset(Candidates(times, now))[x] > 0;
    assert x in times <==> multiset(times)[x] > 0;
  }

  /**
   * A delayed refresh is at the busy end of the first candidate whose gap to
   * the next qualifies, or of the last candidate when none does.
   */
  lemma RefreshAtFirstGap(times: seq<Instant>, now: Instant) returns (j: nat)
    requires FindNextSafeRefreshTime(times, now).RefreshAt?
    ensures var s := Candidates(times, now);
      && j < |s|
      && FindNextSafeRefreshTime(times, now).at == s[j] + BUSY_MS
      && (Qualifies(s, j) || j == |s| - 1)
      && forall k :: 0 <= k < j ==> !Qualifies(s, k)
  {
    j := WalkResult(Candidates(times, now), 0);
  }

  /** A delayed refresh is the busy end of a stored race in the window, so more than ten minutes from now. */
  lemma RefreshAtBusyEnd(times: seq<Instant>, now: Instant)
    requires FindNextSafeRefreshTime(times, now).RefreshAt?
    ensures var t := FindNextSafeRefreshTime(times, now).at;
      && t > now + BUSY_MS
      && exists i :: 0 <= i < |times| && InWindow(times[i], now) && t == times[i] + BUSY_MS
  {
    var s := Candidates(times, now);
    var j := RefreshAtFirstGap(times, now);
    InCandidates(times, now, s[j]);
    var i :| 0 <= i < |times| && times[i] == s[j];
  }

  /** No stored race in the window starts during the three minutes after a delayed refresh begins. */
  lemma RefreshAtCollisionFree(times: seq<Instant>, now: Instant)
    requires FindNextSafeRefreshTime(times, now).RefreshAt?
    ensures var t := FindNextSafeRefreshTime(times, now).at;
      forall i :: 0 <= i < |times| && InWindow(times[i], now) ==> !(t <= times[i] < t + SAFETY_BUFFER_MS)
  {
    var s := Candidates(times, now);
    var j := RefreshAtFirstGap(times, now);
    forall i | 0 <= i < |times| && InWindow(times[i], now)
      ensures !(s[j] + BUSY_MS <= times[i] < s[j] + BUSY_MS + SAFETY_BUFFER_MS)
    {
      InCandidates(times, now, times[i]);
      GapClear(s, j, times[i]);
    }
  }

  /** In a sorted list, nothing starts in the three minutes after the busy end of a race whose gap qualifies, or of the last race. */
  lemma GapClear(s: seq<Instant>, j: nat, x: Instant)
    requires Sorted(s) && j < |s| && (Qualifies(s, j) || j == |s| - 1) && x in s
    ensures !(s[j] + BUSY_MS <= x < s[j] + BUSY_MS + SAFETY_BUFFER_MS)
  {
    var k :| 0 <= k < |s| && s[k] == x;
    if k > j {
      assert s[j + 1] <= s[k];
    } else {
      assert s[k] <= s[j];
    }
  }

  /** Races at now + 10 min and now + 40 min: safe to refresh now. */
  lemma ExampleSafeNow(now: Instant)
    ensures FindNextSafeRefreshTime([now + 600_000, now + 2_400_000], now) == SafeNow
  {
    var times := [now + 600_000, now + 2_400_000];
    assert forall i :: 0 <= i < |times| ==> times[i] > now + SAFETY_BUFFER_MS;
  }

  lemma InHorizonOfTwo(a: Instant, b: Instant, now: Instant)
    requires InWindow(a, now) && InWindow(b, now)
    ensures InHorizon([a, b], now) == [a, b]
  {
    assert [a][..0] == [];
    assert InHorizon([a], now) == [a];
    assert [a, b][..1] == [a];
  }

  lemma SortOfTwo(a: Instant, b: Instant)
    requires a <= b
    ensures SortAsc([a, b]) == [a, b]
  {
    assert [b][1..] == [];
    assert [a, b][1..] == [b];
  }

  /** Two starts inside the window, already in order, are the candidate list as they are. */
  lemma CandidatesOfTwo(a: Instant, b: Instant, now: Instant)
    requires InWindow(a, now) && InWindow(b, now) && a <= b
    ensures Candidates([a, b], now) == [a, b]
  {
    InHorizonOfTwo(a, b, now);
    SortOfTwo(a, b);
  }

  /** Races at now + 1 min and now + 90 min: refresh at now + 11 min, the 79-minute gap being long enough. */
  lemma ExampleAfterFirstRace(now: Instant)
    ensures FindNextSafeRefreshTime([now + 60_000, now + 5_400_000], now) == RefreshAt(now + 660_000)
  {
    CandidatesOfTwo(now + 60_000, now + 5_400_000, now);
  }

  /** A gap of exactly three minutes qualifies: races at now + 1, 14 and 15 min give now + 11 min. */
  lemma ExampleExactGap(now: Instant)
    ensures PlanFor([now + 60_000, now + 840_000, now + 900_000], now) == RefreshAt(now + 660_000)
  {
  }

  /** A gap one millisecond short does not: the walk moves on to the last race. */
  lemma ExampleShortGap(now: Instant)
    ensures PlanFor([now + 60_000, now + 839_999], now) == RefreshAt(now + 1_439_999)
  {
    var s := [now + 60_000, now + 839_999];
    assert Walk(s, 1) == Some(now + 1_439_999);
  }
}

/** The statistics engine behind `GetStatistics`: the newest-first completion
    list becomes a list of days, which is reversed in place, then scanned for
    the current streak, the longest streak and the completion rate.

    Days are day numbers; every specification below is a function on
    sequences of day numbers, and each loop of the source is a method proved
    equal to its function. */
module StreakEngine {
  import opened Models
  import opened Calendar

  datatype Option<T> = None | Some(value: T)

  /** The result of `GetStatistics`. */
  datatype Statistics = Statistics(
    totalCompletions: nat,
    currentStreak: nat,
    longestStreak: nat,
    completionRate: real,
    completions: seq<Instant>)

  // ---------------------------------------------------------------------------
  // Days and their order

  /** The normalized day of each completion, in the order given. */
  function DaysOf(cs: seq<HabitCompletion>): (days: seq<int>)
    ensures |days| == |cs|
    ensures forall i :: 0 <= i < |cs| ==> days[i] == cs[i].completedAt.day
  {
    seq(|cs|, i requires 0 <= i < |cs| => Normalize(cs[i].completedAt).day)
  }

  /** The normalized timestamp of each completion, in the order given. */
  function NormalizedDates(cs: seq<HabitCompletion>): (ts: seq<Instant>)
    ensures |ts| == |cs|
    ensures forall i :: 0 <= i < |cs| ==> ts[i] == Normalize(cs[i].completedAt)
  {
    seq(|cs|, i requires 0 <= i < |cs| => Normalize(cs[i].completedAt))
  }

  /** `s` read back to front. */
  function Reversed(s: seq<int>): (r: seq<int>)
    ensures |r| == |s|
  {
    seq(|s|, k requires 0 <= k < |s| => s[|s| - 1 - k])
  }

  /** Reversing a non-empty list puts its head last. */
  lemma ReversedCons(s: seq<int>)
    requires s != []
    ensures Reversed(s) == Reversed(s[1..]) + [s[0]]
  {
    var r, t := Reversed(s), Reversed(s[1..]) + [s[0]];
    forall k | 0 <= k < |s| ensures r[k] == t[k] {
      if k < |s| - 1 {
        assert t[k] == Reversed(s[1..])[k] == s[1..][|s| - 2 - k];
      }
    }
  }

  /** Reversing keeps every day and its number of occurrences. */
  lemma {:induction false} ReversedMultiset(s: seq<int>)
    ensures multiset(Reversed(s)) == multiset(s)
  {
    if s != [] {
      ReversedMultiset(s[1..]);
      ReversedCons(s);
      assert s == [s[0]] + s[1..];
    }
  }

  /** Reversing keeps every day and its number of occurrences, and undoes
      itself. */
  lemma ReversedPermutes(s: seq<int>)
    ensures multiset(Reversed(s)) == multiset(s)
    ensures forall x :: x in Reversed(s) <==> x in s
    ensures Reversed(Reversed(s)) == s
  {
    ReversedMultiset(s);
    assert forall x :: x in Reversed(s) <==> x in multiset(Reversed(s));
    assert forall x :: x in s <==> x in multiset(s);
  }

  predicate NewestFirst(s: seq<int>) {
    forall i, j :: 0 <= i < j < |s| ==> s[i] >= s[j]
  }

  predicate OldestFirst(s: seq<int>) {
    forall i, j :: 0 <= i < j < |s| ==> s[i] <= s[j]
  }

  predicate StrictlyOldestFirst(s: seq<int>) {
    forall i, j :: 0 <= i < j < |s| ==> s[i] < s[j]
  }

  /** Reversing a newest-first list gives an oldest-first one. */
  lemma ReversedNewestFirst(s: seq<int>)
    requires NewestFirst(s)
    ensures OldestFirst(Reversed(s))
  {
    var r := Reversed(s);
    forall i, j | 0 <= i < j < |r| ensures r[i] <= r[j] {
      assert r[i] == s[|s| - 1 - i] && r[j] == s[|s| - 1 - j];
    }
  }

  // ---------------------------------------------------------------------------
  // Runs of consecutive days

  /** The day `j` days before `d`. */
  function DaysBefore(d: int, j: int): int {
    d - j
  }

  /** The `k` consecutive days ending with `last` all occur in `s`. */
  predicate IsRun(s: seq<int>, last: int, k: nat) {
    forall j :: 0 <= j < k ==> DaysBefore(last, j) in s
  }

  /** A run of `k` distinct days cannot fit in fewer than `k` entries. */
  lemma {:induction false} RunFitsInDays(s: seq<int>, last: int, k: nat)
    requires IsRun(s, last, k)
    ensures k <= |s|
    decreases k
  {
    if k > 0 {
      var d := DaysBefore(last, k - 1);
      assert d in s;
      var i :| 0 <= i < |s| && s[i] == d;
      var rest := s[..i] + s[i + 1..];
      forall j | 0 <= j < k - 1 ensures DaysBefore(last, j) in rest {
        var x := DaysBefore(last, j);
        assert x in s;
        var m :| 0 <= m < |s| && s[m] == x;
        if m < i {
          assert rest[m] == x;
        } else {
          assert m != i;
          assert rest[m - 1] == x;
        }
      }
      RunFitsInDays(rest, last, k - 1);
    }
  }

  /** A run that occurs in `s` occurs in every list holding the same days. */
  lemma RunSameMembers(s: seq<int>, t: seq<int>, last: int, k: nat)
    requires forall x :: x in s <==> x in t
    ensures IsRun(s, last, k) <==> IsRun(t, last, k)
  {
  }

  // ---------------------------------------------------------------------------
  // Current streak

  /** Counts the days `check`, `check - 1`, ... found in `s`, stopping at the
      first one missing or after `fuel` of them. */
  function StreakBack(s: seq<int>, check: int, fuel: nat): nat
    decreases fuel
  {
    if fuel == 0 || check !in s then 0 else 1 + StreakBack(s, check - 1, fuel - 1)
  }

  lemma {:induction false} StreakBackCounts(s: seq<int>, check: int, fuel: nat)
    ensures StreakBack(s, check, fuel) <= fuel
    ensures IsRun(s, check, StreakBack(s, check, fuel))
    ensures StreakBack(s, check, fuel) < fuel ==> DaysBefore(check, StreakBack(s, check, fuel)) !in s
    decreases fuel
  {
    if fuel > 0 && check in s {
      StreakBackCounts(s, check - 1, fuel - 1);
      var r := StreakBack(s, check - 1, fuel - 1);
      forall j | 0 <= j < r + 1 ensures DaysBefore(check, j) in s {
        if j > 0 {
          assert DaysBefore(check, j) == DaysBefore(check - 1, j - 1);
        }
      }
      assert DaysBefore(check, r + 1) == DaysBefore(check - 1, r);
    }
  }

  /** The current streak: consecutive completed days ending today. The walk
      never needs more steps than there are entries in `s`. */
  function CurrentStreak(s: seq<int>, today: int): nat {
    StreakBack(s, today, |s|)
  }

  /** The current streak is the largest `k` such that today, today - 1, ...,
      today - (k - 1) all occur in `s`: a run ending today has length `k`
      exactly when `k` is at most the streak. It never exceeds the number of
      entries, and it is 0 exactly when today does not occur. */
  lemma {:induction false} CurrentStreakIsLongestRunToToday(s: seq<int>, today: int)
    ensures forall k: nat :: IsRun(s, today, k) <==> k <= CurrentStreak(s, today)
    ensures CurrentStreak(s, today) <= |s|
    ensures CurrentStreak(s, today) == 0 <==> today !in s
  {
    var c := CurrentStreak(s, today);
    StreakBackCounts(s, today, |s|);
    if c == |s| && DaysBefore(today, c) in s {
      assert IsRun(s, today, c + 1);
      RunFitsInDays(s, today, c + 1);
    }
    assert DaysBefore(today, c) !in s;
    assert DaysBefore(today, 0) == today;
  }

  /** A run that ends today and cannot be extended by one more day back is
      the current streak. */
  lemma CurrentStreakUnique(s: seq<int>, today: int, k: nat)
    requires IsRun(s, today, k) && DaysBefore(today, k) !in s
    ensures k == CurrentStreak(s, today)
  {
    CurrentStreakIsLongestRunToToday(s, today);
    assert IsRun(s, today, CurrentStreak(s, today));
    assert k < CurrentStreak(s, today) ==> DaysBefore(today, k) in s;
  }

  /** Searches `dates` for `day`, as the inner loop of the streak walk does. */
  method Contains(dates: array<int>, day: int) returns (found: bool)
    ensures found <==> day in dates[..]
  {
    found := false;
    var i := 0;
    while i < dates.Length
      invariant 0 <= i <= dates.Length
      invariant day !in dates[..i]
    {
      if dates[i] == day {
        found := true;
        return;
      }
      assert dates[..i + 1] == dates[..i] + [dates[i]];
      i := i + 1;
    }
    assert dates[..i] == dates[..];
  }

  /** The walk back from today. */
  method CurrentStreakLoop(dates: array<int>, today: int) returns (currentStreak: nat)
    ensures currentStreak == CurrentStreak(dates[..], today)
  {
    currentStreak := 0;
    var checkDate := today;
    while true
      invariant checkDate == DaysBefore(today, currentStreak)
      invariant IsRun(dates[..], today, currentStreak)
      invariant currentStreak <= dates.Length
      decreases dates.Length - currentStreak
    {
      var found := Contains(dates, checkDate);
      if found {
        assert IsRun(dates[..], today, currentStreak + 1);
        RunFitsInDays(dates[..], today, currentStreak + 1);
        currentStreak := currentStreak + 1;
        checkDate := checkDate - 1;
      } else {
        break;
      }
    }
    CurrentStreakUnique(dates[..], today, currentStreak);
  }

  // ---------------------------------------------------------------------------
  // Longest streak

  /** The state of the longest-streak scan: the best run closed so far, the
      run in progress, and the previous day (None before the first one). */
  datatype RunScan = RunScan(longest: nat, current: nat, prev: Option<int>)

  /** What the scan measures between the previous day and the next one: as the
      source is written, `prevDate.Sub(d)`. */
  function GapAsWritten(prev: int, d: int): int {
    prev - d
  }

  /** The step between the previous day and the next one in an oldest-first
      list: `d.Sub(prevDate)`. */
  function GapIntended(prev: int, d: int): int {
    d - prev
  }

  function Max(a: nat, b: nat): nat {
    if a > b then a else b
  }

  /** One step of the scan on day `d`: the first day opens a run of one; a gap
      of exactly one extends the run; anything else closes it and opens a new
      one. */
  function ScanStep(st: RunScan, d: int, gap: (int, int) -> int): RunScan {
    match st.prev
    case None => RunScan(st.longest, 1, Some(d))
    case Some(p) =>
      if gap(p, d) == 1 then RunScan(st.longest, st.current + 1, Some(d))
      else RunScan(Max(st.longest, st.current), 1, Some(d))
  }

  function Scan(s: seq<int>, gap: (int, int) -> int): RunScan
    decreases |s|
  {
    if s == [] then RunScan(0, 0, None) else ScanStep(Scan(s[..|s| - 1], gap), s[|s| - 1], gap)
  }

  /** The scan's answer: the better of the best closed run and the run still
      open at the end. */
  function Finish(st: RunScan): nat {
    Max(st.longest, st.current)
  }

  /** The longest streak as the source computes it. */
  function LongestStreakAsWritten(s: seq<int>): nat {
    Finish(Scan(s, GapAsWritten))
  }

  /** The longest streak the scan evidently means to compute. */
  function LongestRun(s: seq<int>): nat {
    Finish(Scan(s, GapIntended))
  }

  /** Whatever it measures, the scan is 0 on no days and lies between 1 and
      the number of days otherwise. */
  lemma {:induction false} ScanBounds(s: seq<int>, gap: (int, int) -> int)
    ensures s == [] ==> Scan(s, gap) == RunScan(0, 0, None)
    ensures s != [] ==> Scan(s, gap).prev == Some(s[|s| - 1])
    ensures s != [] ==> 1 <= Scan(s, gap).current <= |s| && Scan(s, gap).longest <= |s|
    decreases |s|
  {
    if s != [] {
      ScanBounds(s[..|s| - 1], gap);
    }
  }

  /** The longest streak as written is 0 on no completions and between 1 and
      their number otherwise. */
  lemma LongestStreakAsWrittenBounds(s: seq<int>)
    ensures s == [] ==> LongestStreakAsWritten(s) == 0
    ensures s != [] ==> 1 <= LongestStreakAsWritten(s) <= |s|
  {
    ScanBounds(s, GapAsWritten);
  }

  /** On an oldest-first list, `prevDate.Sub(d)` is never positive, so no run
      ever grows past one day. */
  lemma {:induction false} AsWrittenScanOnOldestFirst(s: seq<int>)
    requires OldestFirst(s) && s != []
    ensures Scan(s, GapAsWritten).current == 1 && Scan(s, GapAsWritten).longest <= 1
    ensures Scan(s, GapAsWritten).prev == Some(s[|s| - 1])
    decreases |s|
  {
    var u := s[..|s| - 1];
    if u != [] {
      AsWrittenScanOnOldestFirst(u);
      assert GapAsWritten(u[|u| - 1], s[|s| - 1]) <= 0;
    }
  }

  /** Hence, as written, the longest streak of any non-empty oldest-first list
      is 1, whatever runs it holds. */
  lemma LongestStreakAsWrittenIsOne(s: seq<int>)
    requires OldestFirst(s) && s != []
    ensures LongestStreakAsWritten(s) == 1
  {
    AsWrittenScanOnOldestFirst(s);
  }

  /** Days D, D+1, D+2, D+5, D+6 hold a run of three, yet the scan as written
      reports 1 while the intended scan reports 3. */
  lemma LongestStreakCounterexample(d: int)
    ensures OldestFirst([d, d + 1, d + 2, d + 5, d + 6])
    ensures IsRun([d, d + 1, d + 2, d + 5, d + 6], d + 2, 3)
    ensures LongestStreakAsWritten([d, d + 1, d + 2, d + 5, d + 6]) == 1
    ensures LongestRun([d, d + 1, d + 2, d + 5, d + 6]) == 3
  {
    var s := [d, d + 1, d + 2, d + 5, d + 6];
    LongestStreakAsWrittenIsOne(s);
    assert DaysBefore(d + 2, 0) == d + 2 && DaysBefore(d + 2, 1) == d + 1 && DaysBefore(d + 2, 2) == d;
    assert s[..1] == [d] && s[..2] == [d, d + 1] && s[..3] == [d, d + 1, d + 2];
    assert s[..4] == [d, d + 1, d + 2, d + 5] && s[..5] == s;
    assert s[..1][..0] == [] && s[..2][..1] == s[..1] && s[..3][..2] == s[..2] && s[..4][..3] == s[..3];
    assert Scan(s[..1], GapIntended) == RunScan(0, 1, Some(d));
    assert Scan(s[..2], GapIntended) == RunScan(0, 2, Some(d + 1));
    assert Scan(s[..3], GapIntended) == RunScan(0, 3, Some(d + 2));
    assert Scan(s[..4], GapIntended) == RunScan(3, 1, Some(d + 5));
    assert Scan(s, GapIntended) == RunScan(3, 2, Some(d + 6));
  }

  function Last(s: seq<int>): int
    requires s != []
  {
    s[|s| - 1]
  }

  /** The intended scan on a strictly oldest-first list: the open run is a run
      of days ending with the last one, every run ending there is no longer,
      every run anywhere is no longer than the answer, and some run is as long
      as the answer. */
  lemma {:induction false} IntendedScanInvariant(t: seq<int>)
    requires StrictlyOldestFirst(t) && t != []
    ensures Scan(t, GapIntended).prev == Some(t[|t| - 1])
    ensures Scan(t, GapIntended).current >= 1
    ensures IsRun(t, Last(t), Scan(t, GapIntended).current)
    ensures forall k: nat :: IsRun(t, Last(t), k) ==> k <= Scan(t, GapIntended).current
    ensures forall e, k: nat :: IsRun(t, e, k) ==> k <= Finish(Scan(t, GapIntended))
    ensures exists e :: IsRun(t, e, Finish(Scan(t, GapIntended)))
    decreases |t|
  {
    var d := t[|t| - 1];
    var u := t[..|t| - 1];
    var st := Scan(t, GapIntended);
    assert DaysBefore(d, 0) == d;
    if u == [] {
      assert t == [d] && t[..0] == [];
      assert Scan(t[..0], GapIntended) == RunScan(0, 0, None);
      assert st == ScanStep(RunScan(0, 0, None), d, GapIntended);
      assert st == RunScan(0, 1, Some(d));
      forall k: nat | IsRun(t, d, k) ensures k <= 1 {
        assert k > 1 ==> DaysBefore(d, 1) in t;
      }
      forall e, k: nat | IsRun(t, e, k) ensures k <= Finish(st) {
        assert k > 1 ==> DaysBefore(e, 0) in t && DaysBefore(e, 1) in t;
      }
      assert IsRun(t, d, 1);
    } else {
      IntendedScanInvariant(u);
      var su := Scan(u, GapIntended);
      var last := u[|u| - 1];
      assert last < d;
      assert forall x :: x in u ==> x <= last;
      assert forall x :: x in t <==> x in u || x == d by {
        assert t == u + [d];
      }
      // The open run.
      if GapIntended(last, d) == 1 {
        assert st == RunScan(su.longest, su.current + 1, Some(d));
        forall j | 0 <= j < st.current ensures DaysBefore(d, j) in t {
          if j > 0 {
            assert DaysBefore(d, j) == DaysBefore(last, j - 1);
          }
        }
      } else {
        assert st == RunScan(Max(su.longest, su.current), 1, Some(d));
      }
      assert Finish(st) >= Finish(su);
      // Every run ending with d is no longer than the open run.
      forall k: nat | IsRun(t, d, k) ensures k <= st.current {
        if k > 1 {
          assert DaysBefore(d, 1) in t;
          assert d - 1 in u;
          assert last == d - 1;
          assert IsRun(u, last, k - 1) by {
            forall j | 0 <= j < k - 1 ensures DaysBefore(last, j) in u {
              assert DaysBefore(last, j) == DaysBefore(d, j + 1);
            }
          }
        }
      }
      // Every run is no longer than the answer.
      forall e, k: nat | IsRun(t, e, k) ensures k <= Finish(st) {
        if k > 0 && e != d {
          assert DaysBefore(e, 0) in t;
          assert e in u;
          assert IsRun(u, e, k) by {
            forall j | 0 <= j < k ensures DaysBefore(e, j) in u {
              assert DaysBefore(e, j) in t;
            }
          }
        }
      }
      // Some run is as long as the answer.
      if Finish(st) == st.current {
        assert IsRun(t, d, Finish(st));
      } else {
        assert Finish(st) == Finish(su);
        var e :| IsRun(u, e, Finish(su));
        assert IsRun(t, e, Finish(st));
      }
    }
  }

  /** On a strictly oldest-first list the intended scan finds the longest run
      of consecutive days: no run is longer, and one is exactly that long. */
  lemma LongestRunIsLongest(s: seq<int>)
    requires StrictlyOldestFirst(s)
    ensures forall e, k: nat :: IsRun(s, e, k) ==> k <= LongestRun(s)
    ensures exists e :: IsRun(s, e, LongestRun(s))
  {
    if s == [] {
      assert IsRun(s, 0, LongestRun(s));
      forall e, k: nat | IsRun(s, e, k) ensures k <= LongestRun(s) {
        assert k > 0 ==> DaysBefore(e, 0) in s;
      }
    } else {
      IntendedScanInvariant(s);
    }
  }

  /** The longest-streak loop, as written. */
  method LongestStreakLoop(dates: array<int>) returns (longestStreak: nat)
    ensures longestStreak == LongestStreakAsWritten(dates[..])
  {
    longestStreak := 0;
    var currentLongest: nat := 0;
    var prevDate: Option<int> := None;
    for i := 0 to dates.Length
      invariant RunScan(longestStreak, currentLongest, prevDate) == Scan(dates[..i], GapAsWritten)
    {
      var d := dates[i];
      assert dates[..i + 1][..i] == dates[..i];
      if prevDate.None? {
        currentLongest := 1;
        prevDate := Some(d);
        continue;
      }
      var daysDiff := GapAsWritten(prevDate.value, d);
      if daysDiff == 1 {
        currentLongest := currentLongest + 1;
      } else {
        if currentLongest > longestStreak {
          longestStreak := currentLongest;
        }
        currentLongest := 1;
      }
      prevDate := Some(d);
    }
    if currentLongest > longestStreak {
      longestStreak := currentLongest;
    }
    assert dates[..dates.Length] == dates[..];
  }

  // ---------------------------------------------------------------------------
  // Completion rate

  /** The completion rate in percent: 0 unless the habit is at least a day old,
      otherwise completions per day times 100, capped at 100. */
  function CompletionRate(total: nat, daysSinceCreation: int): (rate: real)
    ensures 0.0 <= rate <= 100.0
    ensures daysSinceCreation <= 0 ==> rate == 0.0
    ensures daysSinceCreation > 0 ==> (rate == 100.0 <==> total >= daysSinceCreation)
    ensures daysSinceCreation > 0 && total < daysSinceCreation ==>
      rate * (daysSinceCreation as real) == (total as real) * 100.0
  {
    if daysSinceCreation <= 0 then 0.0
    else
      var rate := (total as real) / (daysSinceCreation as real) * 100.0;
      if rate > 100.0 then 100.0 else rate
  }

  /** A habit created ten days ago with five completions is at 50 percent;
      with twenty it is capped at 100. */
  lemma CompletionRateExamples()
    ensures CompletionRate(5, 10) == 50.0
    ensures CompletionRate(20, 10) == 100.0
    ensures CompletionRate(20, 0) == 0.0
  {
  }

  // ---------------------------------------------------------------------------
  // Statistics

  /** The statistics of the completions `cs` (newest first) of a habit created
      at `createdAt`, read at `now`. */
  function StatisticsOf(cs: seq<HabitCompletion>, now: Instant, createdAt: Instant): Statistics {
    if cs == [] then Statistics(0, 0, 0, 0.0, [])
    else
      var dates := Reversed(DaysOf(cs));
      var today := Normalize(now);
      Statistics(
        |cs|,
        CurrentStreak(dates, today.day),
        LongestStreakAsWritten(dates),
        CompletionRate(|cs|, WholeDaysBetween(today, createdAt)),
        NormalizedDates(cs))
  }

  /** The statistics of `GetStatistics`, computed as the source does. */
  method ComputeStatistics(cs: seq<HabitCompletion>, now: Instant, createdAt: Instant)
    returns (stats: Statistics)
    ensures stats == StatisticsOf(cs, now, createdAt)
  {
    stats := Statistics(|cs|, 0, 0, 0.0, []);
    if |cs| == 0 {
      return;
    }
    var dates := new int[|cs|];
    for i := 0 to |cs|
      invariant dates[..i] == DaysOf(cs)[..i]
      invariant stats == Statistics(|cs|, 0, 0, 0.0, NormalizedDates(cs)[..i])
    {
      var d := Normalize(cs[i].completedAt);
      dates[i] := d.day;
      stats := stats.(completions := stats.completions + [d]);
      assert NormalizedDates(cs)[..i + 1] == NormalizedDates(cs)[..i] + [d];
    }
    assert dates[..] == DaysOf(cs)[..|cs|] == DaysOf(cs);
    assert NormalizedDates(cs)[..|cs|] == NormalizedDates(cs);

    ReverseInPlace(dates);

    var today := Normalize(now);
    var currentStreak := CurrentStreakLoop(dates, today.day);
    var longestStreak := LongestStreakLoop(dates);

    var daysSinceCreation := WholeDaysBetween(today, createdAt);
    var rate := 0.0;
    if daysSinceCreation > 0 {
      rate := (|cs| as real) / (daysSinceCreation as real) * 100.0;
      if rate > 100.0 {
        rate := 100.0;
      }
    }
    stats := stats.(currentStreak := currentStreak, longestStreak := longestStreak, completionRate := rate);
  }

  /** The swap loop: reverses `a` in place. */
  method ReverseInPlace(a: array<int>)
    modifies a
    ensures a[..] == Reversed(old(a[..]))
  {
    var i, j := 0, a.Length - 1;
    while i < j
      invariant 0 <= i <= a.Length && j == a.Length - 1 - i
      invariant i <= j + 1 || a.Length == 0
      invariant forall k :: 0 <= k < i ==> a[k] == old(a[a.Length - 1 - k]) && a[a.Length - 1 - k] == old(a[k])
      invariant forall k :: i <= k <= j ==> a[k] == old(a[k])
    {
      a[i], a[j] := a[j], a[i];
      i, j := i + 1, j - 1;
    }
  }

  /** The shape of the statistics: the total is the number of completions,
      the list holds each completion's day in the order given (newest first),
      and with no completions every figure is 0 and the list is empty. */
  lemma StatisticsShape(cs: seq<HabitCompletion>, now: Instant, createdAt: Instant)
    ensures var stats := StatisticsOf(cs, now, createdAt);
      && stats.totalCompletions == |cs|
      && |stats.completions| == |cs|
      && (forall i :: 0 <= i < |cs| ==> stats.completions[i] == Normalize(cs[i].completedAt))
      && (cs == [] ==> stats == Statistics(0, 0, 0, 0.0, []))
  {
  }

  /** The current streak counts the completed days ending today: a run of `k`
      days ending today is completed exactly when `k` is at most the streak.
      It is 0 exactly when today is not completed and never exceeds the
      total. */
  lemma StatisticsCurrentStreak(cs: seq<HabitCompletion>, now: Instant, createdAt: Instant)
    ensures var stats := StatisticsOf(cs, now, createdAt);
      && (forall k: nat :: IsRun(DaysOf(cs), now.day, k) <==> k <= stats.currentStreak)
      && (stats.currentStreak == 0 <==> now.day !in DaysOf(cs))
      && stats.currentStreak <= stats.totalCompletions
  {
    var days := DaysOf(cs);
    if cs != [] {
      var dates := Reversed(days);
      ReversedPermutes(days);
      CurrentStreakIsLongestRunToToday(dates, now.day);
      forall k: nat ensures IsRun(days, now.day, k) <==> IsRun(dates, now.day, k) {
        RunSameMembers(days, dates, now.day, k);
      }
    } else {
      forall k: nat | IsRun(days, now.day, k) ensures k == 0 {
        assert k > 0 ==> DaysBefore(now.day, 0) in days;
      }
    }
  }

  /** The longest streak as written: 0 without completions, between 1 and the
      total otherwise, and exactly 1 when the completions come newest first,
      as the service lists them. */
  lemma StatisticsLongestStreak(cs: seq<HabitCompletion>, now: Instant, createdAt: Instant)
    ensures var stats := StatisticsOf(cs, now, createdAt);
      && (cs == [] ==> stats.longestStreak == 0)
      && (cs != [] ==> 1 <= stats.longestStreak <= stats.totalCompletions)
      && (cs != [] && NewestFirst(DaysOf(cs)) ==> stats.longestStreak == 1)
  {
    if cs != [] {
      var dates := Reversed(DaysOf(cs));
      LongestStreakAsWrittenBounds(dates);
      if NewestFirst(DaysOf(cs)) {
        ReversedNewestFirst(DaysOf(cs));
        LongestStreakAsWrittenIsOne(dates);
      }
    }
  }

  /** The completion rate lies in [0, 100]; it is 0 unless at least a whole
      day has passed since the habit was created. */
  lemma StatisticsCompletionRate(cs: seq<HabitCompletion>, now: Instant, createdAt: Instant)
    ensures var stats := StatisticsOf(cs, now, createdAt);
      && 0.0 <= stats.completionRate <= 100.0
      && (WholeDaysBetween(Normalize(now), createdAt) <= 0 ==> stats.completionRate == 0.0)
      && (cs != [] && createdAt.day >= now.day ==> stats.completionRate == 0.0)
  {
    WholeDaysSinceTimestamp(Normalize(now), createdAt);
  }

  /** Completions today, yesterday and the day before but not three days ago
      make a current streak of 3; a completion yesterday alone makes 0. */
  lemma CurrentStreakExamples(t: int)
    ensures CurrentStreak([t - 2, t - 1, t], t) == 3
    ensures CurrentStreak([t - 1], t) == 0
  {
    var s := [t - 2, t - 1, t];
    assert DaysBefore(t, 0) == t && DaysBefore(t, 1) == t - 1 && DaysBefore(t, 2) == t - 2;
    assert IsRun(s, t, 3);
    assert t - 3 !in s;
    CurrentStreakUnique(s, t, 3);
    CurrentStreakIsLongestRunToToday([t - 1], t);
  }
}

/** The habit service: habit lifecycle (create, read, update, delete), the
    completion ledger (mark and unmark a day, list a habit's completions) and
    the statistics request, over an in-memory store of habit and completion
    rows. */
module Services {
  import opened Models
  import opened Calendar
  import opened StreakEngine

  /** The errors the service reports. The first three are the service's own;
      StoreError carries the text of a failure of the store itself, worded by
      the database driver. The only store failure modelled is an insert whose
      primary key is already taken. */
  datatype Error = HabitNotFound | AlreadyCompleted | CompletionNotFound | StoreError(driverText: string)

  datatype Result<T> = Ok(value: T) | Err(error: Error)

  /** What an operation that returns only an error gives back. */
  datatype Outcome = Pass | Fail(error: Error)

  /** The text SQLite gives for an insert into `table` whose id is taken. */
  function DuplicateKey(table: string): string {
    "UNIQUE constraint failed: " + table + ".id"
  }

  /** The text of each error: the service words its own three, and passes the
      driver's text through for a store failure. */
  function ErrorMessage(e: Error): string {
    match e
    case HabitNotFound => "habit not found"
    case AlreadyCompleted => "habit already completed for this date"
    case CompletionNotFound => "completion not found for this date"
    case StoreError(text) => text
  }

  /** The service's own errors never share a text, and none of them reads
      like the driver's duplicate-key failure, so matching on the text tells
      them apart. */
  lemma ErrorMessagesDistinct(a: Error, b: Error, table: string)
    ensures !a.StoreError? && !b.StoreError? ==> (ErrorMessage(a) == ErrorMessage(b) <==> a == b)
    ensures !a.StoreError? ==> ErrorMessage(a) != DuplicateKey(table)
  {
    assert DuplicateKey(table)[0] == 'U';
  }

  // ---------------------------------------------------------------------------
  // Habit defaults and partial updates

  const DefaultColor: string := "#3B82F6"

  /** The defaults `Create` fills in before inserting: frequency "daily" and
      color "#3B82F6" where they are empty; nothing else is touched. */
  function ApplyDefaults(h: Habit): (r: Habit)
    ensures r.frequency != "" && r.color != ""
    ensures h.frequency != "" ==> r.frequency == h.frequency
    ensures h.frequency == "" ==> r.frequency == FrequencyDaily
    ensures h.color != "" ==> r.color == h.color
    ensures h.color == "" ==> r.color == DefaultColor
    ensures r.(frequency := h.frequency, color := h.color) == h
  {
    var h1 := if h.frequency == "" then h.(frequency := FrequencyDaily) else h;
    if h1.color == "" then h1.(color := DefaultColor) else h1
  }

  /** Filling defaults twice is filling them once. */
  lemma ApplyDefaultsIdempotent(h: Habit)
    ensures ApplyDefaults(ApplyDefaults(h)) == ApplyDefaults(h)
  {
  }

  /** The service's defaults are the column defaults of the schema. */
  lemma DefaultsMatchSchema()
    ensures FrequencyDaily == SchemaDefaultFrequency
    ensures DefaultColor == SchemaDefaultColor
    ensures FrequencyDaily in NamedFrequencies()
  {
  }

  /** A partial update: every non-empty text field of `patch` replaces the
      stored one, empty ones are skipped, the id and creation time stay and
      the update time becomes `now`. */
  function Patch(h: Habit, patch: Habit, now: Instant): (r: Habit)
    ensures r.id == h.id && r.createdAt == h.createdAt && r.updatedAt == now
    ensures patch.name != "" ==> r.name == patch.name
    ensures patch.name == "" ==> r.name == h.name
    ensures patch.description != "" ==> r.description == patch.description
    ensures patch.description == "" ==> r.description == h.description
    ensures patch.frequency != "" ==> r.frequency == patch.frequency
    ensures patch.frequency == "" ==> r.frequency == h.frequency
    ensures patch.color != "" ==> r.color == patch.color
    ensures patch.color == "" ==> r.color == h.color
    ensures patch.category != "" ==> r.category == patch.category
    ensures patch.category == "" ==> r.category == h.category
  {
    h.(
      name := if patch.name != "" then patch.name else h.name,
      description := if patch.description != "" then patch.description else h.description,
      frequency := if patch.frequency != "" then patch.frequency else h.frequency,
      color := if patch.color != "" then patch.color else h.color,
      category := if patch.category != "" then patch.category else h.category,
      updatedAt := now)
  }

  /** Applying the same update twice is applying it once, and an update never
      empties a field that had a value. */
  lemma PatchIdempotent(h: Habit, patch: Habit, now: Instant)
    ensures Patch(Patch(h, patch, now), patch, now) == Patch(h, patch, now)
    ensures h.frequency != "" ==> Patch(h, patch, now).frequency != ""
    ensures h.color != "" ==> Patch(h, patch, now).color != ""
  {
  }

  // ---------------------------------------------------------------------------
  // Completion listings

  /** `c` records habit `habitId` as done on day `day`. */
  predicate InSlot(c: HabitCompletion, habitId: Uuid, day: int) {
    c.habitId == habitId && c.completedAt.day == day
  }

  /** Newest first, no two completions on the same day: the order of
      `completed_at DESC` on rows with distinct days. */
  predicate StrictlyNewestFirst(cs: seq<HabitCompletion>) {
    forall i, j :: 0 <= i < j < |cs| ==> cs[i].completedAt.day > cs[j].completedAt.day
  }

  /** Puts `c` into a newest-first listing at its place. */
  function InsertNewestFirst(cs: seq<HabitCompletion>, c: HabitCompletion): (r: seq<HabitCompletion>)
    requires StrictlyNewestFirst(cs)
    requires forall x :: x in cs ==> x.completedAt.day != c.completedAt.day
    ensures StrictlyNewestFirst(r)
    ensures forall x :: x in r <==> x in cs || x == c
    ensures |r| == |cs| + 1
    decreases |cs|
  {
    if cs == [] || c.completedAt.day > cs[0].completedAt.day then [c] + cs
    else
      var rest := InsertNewestFirst(cs[1..], c);
      assert forall x :: x in cs[1..] ==> x.completedAt.day < cs[0].completedAt.day by {
        forall x | x in cs[1..] ensures x.completedAt.day < cs[0].completedAt.day {
          var k :| 0 <= k < |cs[1..]| && cs[1..][k] == x;
          assert cs[k + 1] == x;
        }
      }
      assert cs == [cs[0]] + cs[1..];
      [cs[0]] + rest
  }

  /** A newest-first listing is fixed by the completions it holds. */
  lemma {:induction false} ListingUnique(a: seq<HabitCompletion>, b: seq<HabitCompletion>)
    requires StrictlyNewestFirst(a) && StrictlyNewestFirst(b)
    requires forall x :: x in a <==> x in b
    ensures a == b
    decreases |a|
  {
    assert a != [] ==> a[0] in b;
    assert b != [] ==> b[0] in a;
    if a != [] && b != [] {
      var i :| 0 <= i < |b| && b[i] == a[0];
      assert i == 0;
      forall x ensures x in a[1..] <==> x in b[1..] {
        ListingTail(a, x);
        ListingTail(b, x);
      }
      ListingUnique(a[1..], b[1..]);
      assert a == [a[0]] + a[1..] && b == [b[0]] + b[1..];
    }
  }

  /** The tail of a newest-first listing holds every row but the head. */
  lemma ListingTail(cs: seq<HabitCompletion>, x: HabitCompletion)
    requires StrictlyNewestFirst(cs) && cs != []
    ensures x in cs[1..] <==> x in cs && x != cs[0]
  {
    if x in cs[1..] {
      var k :| 0 <= k < |cs[1..]| && cs[1..][k] == x;
      assert cs[k + 1] == x;
    }
    if x in cs && x != cs[0] {
      var k :| 0 <= k < |cs| && cs[k] == x;
      assert cs[1..][k - 1] == x;
    }
  }

  /** Rows of a newest-first listing have newest-first days, and the reversed
      day list the statistics scan is strictly oldest first. */
  lemma ListingDaysNewestFirst(cs: seq<HabitCompletion>)
    requires StrictlyNewestFirst(cs)
    ensures NewestFirst(DaysOf(cs))
    ensures StrictlyOldestFirst(Reversed(DaysOf(cs)))
  {
    var days := DaysOf(cs);
    var r := Reversed(days);
    forall i, j | 0 <= i < j < |r| ensures r[i] < r[j] {
      assert r[i] == days[|days| - 1 - i] && r[j] == days[|days| - 1 - j];
    }
  }

  /** On the day list of a listing, as `GetStatistics` builds it, the
      corrected scan finds the longest run of completed days: no run is
      longer, and one is exactly that long. */
  lemma ListingLongestRun(cs: seq<HabitCompletion>)
    requires StrictlyNewestFirst(cs)
    ensures forall e, k: nat :: IsRun(DaysOf(cs), e, k) ==> k <= LongestRun(Reversed(DaysOf(cs)))
    ensures exists e :: IsRun(DaysOf(cs), e, LongestRun(Reversed(DaysOf(cs))))
  {
    var days := DaysOf(cs);
    var dates := Reversed(days);
    ListingDaysNewestFirst(cs);
    ReversedPermutes(days);
    LongestRunIsLongest(dates);
    forall e, k: nat ensures IsRun(days, e, k) <==> IsRun(dates, e, k) {
      RunSameMembers(days, dates, e, k);
    }
  }

  /** The completion rows without those of habit `habitId`. */
  function WithoutHabit(m: map<Uuid, HabitCompletion>, habitId: Uuid): (r: map<Uuid, HabitCompletion>)
    ensures forall id :: id in r <==> id in m && m[id].habitId != habitId
    ensures forall id :: id in r ==> r[id] == m[id]
  {
    map id | id in m && m[id].habitId != habitId :: m[id]
  }

  /** The completion rows without those of habit `habitId` on day `day`. */
  function WithoutSlot(m: map<Uuid, HabitCompletion>, habitId: Uuid, day: int): (r: map<Uuid, HabitCompletion>)
    ensures forall id :: id in r <==> id in m && !InSlot(m[id], habitId, day)
    ensures forall id :: id in r ==> r[id] == m[id]
  {
    map id | id in m && !InSlot(m[id], habitId, day) :: m[id]
  }

  // ---------------------------------------------------------------------------
  // The store

  class HabitStore {
    /** Habit rows by id. */
    var habits: map<Uuid, Habit>
    /** Completion rows by id. */
    var completions: map<Uuid, HabitCompletion>

    /** Every row is filed under its own non-nil id; every completion belongs
        to a stored habit and holds a normalized day; no habit has two
        completions on one day. */
    ghost predicate Valid()
      reads this
    {
      && (forall id :: id in habits ==> id != Nil && habits[id].id == id)
      && (forall id :: id in completions ==>
            && id != Nil
            && completions[id].id == id
            && completions[id].habitId in habits
            && IsNormalized(completions[id].completedAt))
      && (forall id1, id2 ::
            (id1 in completions && id2 in completions &&
             InSlot(completions[id2], completions[id1].habitId, completions[id1].completedAt.day)) ==> id1 == id2)
    }

    /** A completion of habit `habitId` on day `day` is stored. */
    predicate IsCompleted(habitId: Uuid, day: int)
      reads this
    {
      exists id :: id in completions && InSlot(completions[id], habitId, day)
    }

    /** `cs` lists exactly the completions of habit `habitId`, newest first. */
    ghost predicate IsListing(cs: seq<HabitCompletion>, habitId: Uuid)
      reads this
    {
      && StrictlyNewestFirst(cs)
      && forall c :: c in cs <==> c.id in completions && completions[c.id] == c && c.habitId == habitId
    }

    constructor ()
      ensures Valid()
      ensures habits == map[] && completions == map[]
    {
      habits := map[];
      completions := map[];
    }

    /** Inserts `h` after filling its defaults; the insert gives it the id
        `freshId` when it has none and stamps both of its times with `now`. */
    method Create(h: Habit, freshId: Uuid, now: Instant) returns (r: Result<Habit>)
      requires Valid() && freshId != Nil
      modifies this
      ensures Valid()
      ensures completions == old(completions)
      ensures var created := ApplyDefaults(h).BeforeCreate(freshId).(createdAt := now, updatedAt := now);
        && (created.id in old(habits) ==> r == Err(StoreError(DuplicateKey("habits"))) && habits == old(habits))
        && (created.id !in old(habits) ==> r == Ok(created) && habits == old(habits)[created.id := created])
    {
      var habit := ApplyDefaults(h);
      habit := habit.BeforeCreate(freshId);
      habit := habit.(createdAt := now, updatedAt := now);
      if habit.id in habits {
        r := Err(StoreError(DuplicateKey("habits")));
        return;
      }
      habits := habits[habit.id := habit];
      r := Ok(habit);
    }

    /** All habits, each once, in no particular order. */
    method GetAll() returns (hs: seq<Habit>)
      requires Valid()
      ensures |hs| == |habits|
      ensures forall h :: h in hs <==> h in habits.Values
    {
      hs := [];
      var pending := habits.Keys;
      while pending != {}
        invariant pending <= habits.Keys
        invariant |hs| + |pending| == |habits.Keys|
        invariant forall h :: h in hs <==> h.id in habits && habits[h.id] == h && h.id !in pending
        decreases pending
      {
        var id :| id in pending;
        hs := hs + [habits[id]];
        pending := pending - {id};
      }
      assert |habits| == |habits.Keys|;
      forall h ensures h in habits.Values <==> h.id in habits && habits[h.id] == h {
        if h in habits.Values {
          var id :| id in habits && habits[id] == h;
        }
      }
    }

    /** The habit with id `id`, or HabitNotFound. */
    method GetByID(id: Uuid) returns (r: Result<Habit>)
      ensures id in habits ==> r == Ok(habits[id])
      ensures id !in habits ==> r == Err(HabitNotFound)
    {
      if id !in habits {
        return Err(HabitNotFound);
      }
      r := Ok(habits[id]);
    }

    /** Applies the non-empty fields of `patch` to habit `id`; fails with
        HabitNotFound exactly when there is no such habit. */
    method Update(id: Uuid, patch: Habit, now: Instant) returns (r: Outcome)
      requires Valid()
      modifies this
      ensures Valid()
      ensures completions == old(completions)
      ensures id !in old(habits) ==> r == Fail(HabitNotFound) && habits == old(habits)
      ensures id in old(habits) ==> r == Pass && habits == old(habits)[id := Patch(old(habits)[id], patch, now)]
    {
      if id !in habits {
        return Fail(HabitNotFound);
      }
      habits := habits[id := Patch(habits[id], patch, now)];
      r := Pass;
    }

    /** Removes habit `id` and, by cascade, its completions; fails with
        HabitNotFound exactly when there is no such habit. */
    method Delete(id: Uuid) returns (r: Outcome)
      requires Valid()
      modifies this
      ensures Valid()
      ensures id !in old(habits) ==> r == Fail(HabitNotFound) && habits == old(habits) && completions == old(completions)
      ensures id in old(habits) ==> r == Pass && habits == old(habits) - {id} && completions == WithoutHabit(old(completions), id)
      ensures forall cid :: cid in completions ==> completions[cid].habitId != id
    {
      if id !in habits {
        return Fail(HabitNotFound);
      }
      habits := habits - {id};
      completions := WithoutHabit(completions, id);
      r := Pass;
    }

    /** Records habit `habitId` as done on the day of `date`; the insert gives
        the new row the id `freshId` and stamps it with `now`. */
    method MarkComplete(habitId: Uuid, date: Instant, freshId: Uuid, now: Instant) returns (r: Outcome)
      requires Valid() && freshId != Nil
      modifies this
      ensures Valid()
      ensures habits == old(habits)
      ensures habitId !in old(habits) ==> r == Fail(HabitNotFound) && completions == old(completions)
      ensures habitId in old(habits) && old(IsCompleted(habitId, date.day)) ==>
        r == Fail(AlreadyCompleted) && completions == old(completions)
      ensures habitId in old(habits) && !old(IsCompleted(habitId, date.day)) && freshId in old(completions) ==>
        r == Fail(StoreError(DuplicateKey("habit_completions"))) && completions == old(completions)
      ensures habitId in old(habits) && !old(IsCompleted(habitId, date.day)) && freshId !in old(completions) ==>
        && r == Pass
        && completions == old(completions)[freshId := HabitCompletion(freshId, habitId, Normalize(date), "", now)]
      ensures r == Pass ==> IsCompleted(habitId, date.day)
    {
      var found := GetByID(habitId);
      if found.Err? {
        return Fail(found.error);
      }
      var day := Normalize(date);
      if IsCompleted(habitId, day.day) {
        return Fail(AlreadyCompleted);
      }
      var completion := HabitCompletion(Nil, habitId, day, "", now).BeforeCreate(freshId);
      if completion.id in completions {
        return Fail(StoreError(DuplicateKey("habit_completions")));
      }
      completions := completions[completion.id := completion];
      r := Pass;
      assert InSlot(completions[freshId], habitId, date.day);
    }

    /** Deletes every completion of habit `habitId` on the day of `date`;
        fails with CompletionNotFound exactly when there was none. */
    method UnmarkComplete(habitId: Uuid, date: Instant) returns (r: Outcome)
      requires Valid()
      modifies this
      ensures Valid()
      ensures habits == old(habits)
      ensures completions == WithoutSlot(old(completions), habitId, date.day)
      ensures r == Pass <==> old(IsCompleted(habitId, date.day))
      ensures r != Pass ==> r == Fail(CompletionNotFound)
      ensures !IsCompleted(habitId, date.day)
    {
      var day := Normalize(date);
      var before := completions;
      completions := WithoutSlot(completions, habitId, day.day);
      var rowsAffected := |before.Keys| - |completions.Keys|;
      RemovedRows(before, completions, habitId, day.day);
      if rowsAffected == 0 {
        return Fail(CompletionNotFound);
      }
      r := Pass;
    }

    /** The completions of habit `habitId`, newest first. */
    method GetCompletions(habitId: Uuid) returns (cs: seq<HabitCompletion>)
      requires Valid()
      ensures IsListing(cs, habitId)
    {
      var pending := set id | id in completions && completions[id].habitId == habitId;
      cs := [];
      while pending != {}
        invariant pending <= completions.Keys
        invariant forall id :: id in pending ==> completions[id].habitId == habitId
        invariant StrictlyNewestFirst(cs)
        invariant forall c :: c in cs <==>
          c.id in completions && completions[c.id] == c && c.habitId == habitId && c.id !in pending
        decreases pending
      {
        var id :| id in pending;
        var c := completions[id];
        forall x | x in cs ensures x.completedAt.day != c.completedAt.day {
          assert x.id != id;
          assert !InSlot(completions[x.id], c.habitId, c.completedAt.day);
        }
        cs := InsertNewestFirst(cs, c);
        pending := pending - {id};
      }
    }

    /** The statistics of habit `habitId` read at `now`, or HabitNotFound. */
    method GetStatistics(habitId: Uuid, now: Instant) returns (r: Result<Statistics>)
      requires Valid()
      ensures habitId !in habits ==> r == Err(HabitNotFound)
      ensures habitId in habits ==>
        exists cs :: IsListing(cs, habitId) && r == Ok(StatisticsOf(cs, now, habits[habitId].createdAt))
    {
      var found := GetByID(habitId);
      if found.Err? {
        return Err(found.error);
      }
      var cs := GetCompletions(habitId);
      var stats := ComputeStatistics(cs, now, found.value.createdAt);
      r := Ok(stats);
    }
  }

  /** Removing rows shrinks the key set exactly when a row was removed. */
  lemma RemovedRows(before: map<Uuid, HabitCompletion>, after: map<Uuid, HabitCompletion>, habitId: Uuid, day: int)
    requires after == WithoutSlot(before, habitId, day)
    ensures |before.Keys| - |after.Keys| == 0 <==> !exists id :: id in before && InSlot(before[id], habitId, day)
  {
    var removed := before.Keys - after.Keys;
    assert before.Keys == after.Keys + removed;
    assert |before.Keys| == |after.Keys| + |removed|;
    if exists id :: id in before && InSlot(before[id], habitId, day) {
      var id :| id in before && InSlot(before[id], habitId, day);
      assert id in removed;
    } else {
      assert removed == {};
    }
  }

  /** Marking a day twice, even at another time of that day, fails the second
      time; unmarking it then succeeds, and unmarking it again fails. */
  method CompletionRoundTrip(store: HabitStore, habitId: Uuid, date: Instant, sameDay: Instant, freshA: Uuid, freshB: Uuid)
    returns (first: Outcome, second: Outcome, undo: Outcome, redo: Outcome)
    requires store.Valid() && freshA != Nil && freshB != Nil
    requires sameDay.day == date.day
    modifies store
    ensures first == Pass ==> second == Fail(AlreadyCompleted) && undo == Pass
    ensures redo == Fail(CompletionNotFound)
  {
    first := store.MarkComplete(habitId, date, freshA, date);
    second := store.MarkComplete(habitId, sameDay, freshB, sameDay);
    undo := store.UnmarkComplete(habitId, sameDay);
    redo := store.UnmarkComplete(habitId, date);
  }

  /** Deleting a habit leaves none of its completions to list. */
  method DeleteCascades(store: HabitStore, habitId: Uuid) returns (r: Outcome, listed: seq<HabitCompletion>)
    requires store.Valid()
    modifies store
    ensures listed == []
    ensures r == Pass <==> habitId in old(store.habits)
  {
    r := store.Delete(habitId);
    listed := store.GetCompletions(habitId);
    assert habitId !in store.habits;
    NothingListed(listed);
  }

  lemma NothingListed(cs: seq<HabitCompletion>)
    ensures (forall c :: c !in cs) ==> cs == []
  {
    if cs != [] {
      assert cs[0] in cs;
    }
  }
}

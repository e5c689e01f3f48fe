/** The records of the habit tracker: identifiers, timestamps, the Frequency
    values, Habit and HabitCompletion, and the hooks that give a record its id
    just before it is inserted. */
module Models {

  /** A UUID, as the number its 128 bits spell; the nil UUID is all zero bits. */
  type Uuid = nat

  const Nil: Uuid := 0

  /** Nanoseconds in one calendar day. */
  const NanosPerDay: nat := 86_400_000_000_000

  type TimeOfDay = n: nat | n < NanosPerDay

  /** A local timestamp: the number of its calendar day and the time elapsed
      since that day's midnight, in nanoseconds. */
  datatype Instant = Instant(day: int, sinceMidnight: TimeOfDay)

  /** How often a habit is meant to be done. The source declares it as a string
      type, so any string (the empty one included) is a Frequency value; three
      of them are named. */
  type Frequency = string

  const FrequencyDaily: Frequency := "daily"
  const FrequencyWeekly: Frequency := "weekly"
  const FrequencyCustom: Frequency := "custom"

  /** The named frequencies: three different, non-empty values. */
  function NamedFrequencies(): (fs: set<Frequency>)
    ensures |fs| == 3
    ensures "" !in fs
    ensures forall f :: f in fs <==> f == FrequencyDaily || f == FrequencyWeekly || f == FrequencyCustom
  {
    assert FrequencyDaily[0] != FrequencyWeekly[0] && FrequencyWeekly[0] != FrequencyCustom[0];
    {FrequencyDaily, FrequencyWeekly, FrequencyCustom}
  }

  /** Column defaults the schema declares for a habit's frequency and color. */
  const SchemaDefaultFrequency: Frequency := "daily"
  const SchemaDefaultColor: string := "#3B82F6"

  /** A habit row. The `Completions` association of the source is not a column
      and is never loaded by the service, so it is not part of the record. */
  datatype Habit = Habit(
    id: Uuid,
    name: string,
    description: string,
    frequency: Frequency,
    color: string,
    category: string,
    createdAt: Instant,
    updatedAt: Instant)
  {
    /** The hook run before a habit is inserted; `freshId` is the value the UUID
        generator yields, never the nil UUID. */
    function BeforeCreate(freshId: Uuid): (h: Habit)
      requires freshId != Nil
      ensures h.id != Nil
      ensures id != Nil ==> h == this
      ensures id == Nil ==> h.id == freshId
      ensures h.(id := id) == this
    {
      if id == Nil then this.(id := freshId) else this
    }
  }

  /** A completion row: habit `habitId` was done on the day of `completedAt`. */
  datatype HabitCompletion = HabitCompletion(
    id: Uuid,
    habitId: Uuid,
    completedAt: Instant,
    notes: string,
    createdAt: Instant)
  {
    /** The hook run before a completion is inserted; same rule as for a habit. */
    function BeforeCreate(freshId: Uuid): (c: HabitCompletion)
      requires freshId != Nil
      ensures c.id != Nil
      ensures id != Nil ==> c == this
      ensures id == Nil ==> c.id == freshId
      ensures c.(id := id) == this
    {
      if id == Nil then this.(id := freshId) else this
    }
  }

  /** Running either hook a second time changes nothing: an id, once given,
      stays. */
  lemma BeforeCreateIdempotent(h: Habit, c: HabitCompletion, first: Uuid, second: Uuid)
    requires first != Nil && second != Nil
    ensures h.BeforeCreate(first).BeforeCreate(second) == h.BeforeCreate(first)
    ensures c.BeforeCreate(first).BeforeCreate(second) == c.BeforeCreate(first)
  {
  }
}

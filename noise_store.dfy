/**
 * The `noise_levels` table and the write path of `on_message`.
 *
 * The table (`unix_time TEXT PRIMARY KEY, noise_level BLOB NOT NULL`) is a
 * map from arrival instant to the raw payload bytes. The range query of the
 * subscriber compares `datetime(unix_time)` with `datetime(?1)` and
 * `datetime(?2)`; `datetime` keeps whole seconds, so the filter compares the
 * instants' seconds, both ends included, and promises no order.
 */
module NoiseStore {
  import opened Wrappers
  import opened Bytes
  import opened NoiseLevel

  /** An arrival instant: nanoseconds since the Unix epoch, UTC. */
  type Instant = int

  const NANOS_PER_SECOND: int := 1_000_000_000

  /** The instant as `datetime` sees it: the whole second it falls in. */
  function WholeSecond(t: Instant): (s: int)
    ensures s * NANOS_PER_SECOND <= t < (s + 1) * NANOS_PER_SECOND
  {
    t / NANOS_PER_SECOND
  }

  /** The table's contents: `unix_time` to `noise_level`. */
  type Rows = map<Instant, seq<Byte>>

  /** The rows whose second lies between the seconds of `from` and `to`, inclusive. */
  function Between(rows: Rows, from: Instant, to: Instant): (r: Rows)
    ensures forall t :: t in r <==> t in rows && WholeSecond(from) <= WholeSecond(t) <= WholeSecond(to)
    ensures forall t :: t in r ==> r[t] == rows[t]
  {
    map t | t in rows && WholeSecond(from) <= WholeSecond(t) <= WholeSecond(to) :: rows[t]
  }

  /** An INSERT refused by the PRIMARY KEY on `unix_time`. */
  datatype StoreError = PrimaryKeyConflict

  class NoiseLevelTable {
    var rows: Rows

    /** `CREATE TABLE IF NOT EXISTS noise_levels` on a fresh database. */
    constructor ()
      ensures rows == map[]
    {
      rows := map[];
    }

    /** `INSERT INTO noise_levels (unix_time, noise_level) VALUES (?1, ?2)`. */
    method Insert(unixTime: Instant, noiseLevel: seq<Byte>) returns (r: Result<(), StoreError>)
      modifies this
      ensures unixTime in old(rows) ==> r == Failure(PrimaryKeyConflict) && rows == old(rows)
      ensures unixTime !in old(rows) ==> r == Success(()) && rows == old(rows)[unixTime := noiseLevel]
    {
      if unixTime in rows {
        return Failure(PrimaryKeyConflict);
      }
      rows := rows[unixTime := noiseLevel];
      return Success(());
    }
  }

  /** Why `on_message` gives up: the payload is not a reading, or the INSERT failed. */
  datatype MessageError = Decode(cause: IoError) | Store(reason: StoreError)

  /**
   * `on_message`. The payload is decoded only inside `debug!`, whose
   * arguments are evaluated only when the logger admits the Debug level
   * (`debugEnabled`); then a payload that is not a reading aborts before any
   * write. The raw payload is stored under the arrival instant `now`.
   */
  method OnMessage(table: NoiseLevelTable, debugEnabled: bool, now: Instant, payload: seq<Byte>)
    returns (r: Result<(), MessageError>)
    modifies table
    ensures debugEnabled && |payload| < 4 ==>
              r == Failure(Decode(UnexpectedEof)) && table.rows == old(table.rows)
    ensures (!debugEnabled || |payload| >= 4) && now in old(table.rows) ==>
              r == Failure(Store(PrimaryKeyConflict)) && table.rows == old(table.rows)
    ensures (!debugEnabled || |payload| >= 4) && now !in old(table.rows) ==>
              r == Success(()) && table.rows == old(table.rows)[now := payload]
  {
    if debugEnabled {
      var level := ParseNoiseLevel(payload);
      if level.Failure? {
        return Failure(Decode(level.error));
      }
    }
    var inserted := table.Insert(now, payload);
    if inserted.Failure? {
      return Failure(Store(inserted.error));
    }
    return Success(());
  }

  // Properties of the range query over the table.

  /**
   * A successful insert adds the new row to exactly the ranges whose seconds
   * cover its instant, and changes no other row of any range.
   */
  lemma {:induction false} BetweenAfterInsert(rows: Rows, t: Instant, payload: seq<Byte>, from: Instant, to: Instant)
    requires t !in rows
    ensures Between(rows[t := payload], from, to) ==
              if WholeSecond(from) <= WholeSecond(t) <= WholeSecond(to)
              then Between(rows, from, to)[t := payload]
              else Between(rows, from, to)
  {
  }

  /** Widening the range never loses a row. */
  lemma {:induction false} BetweenWiden(rows: Rows, from: Instant, to: Instant, from': Instant, to': Instant)
    requires WholeSecond(from') <= WholeSecond(from) && WholeSecond(to) <= WholeSecond(to')
    ensures Between(rows, from, to).Keys <= Between(rows, from', to').Keys
  {
  }

  /** A range whose end second is before its start second selects nothing. */
  lemma {:induction false} ReversedRangeEmpty(rows: Rows, from: Instant, to: Instant)
    requires WholeSecond(to) < WholeSecond(from)
    ensures Between(rows, from, to) == map[]
  {
  }

  /** A range from an instant to itself selects every row of that whole second. */
  lemma {:induction false} SingleSecondRange(rows: Rows, at: Instant, t: Instant)
    requires t in rows && WholeSecond(t) == WholeSecond(at)
    ensures t in Between(rows, at, at)
  {
  }

  /** Two messages in the same second are two rows, each found by a query for that second. */
  lemma {:induction false} SameSecondArrivals(rows: Rows, t1: Instant, p1: seq<Byte>, t2: Instant, p2: seq<Byte>)
    requires t1 !in rows && t2 !in rows && t1 < t2 && WholeSecond(t1) == WholeSecond(t2)
    ensures var after := rows[t1 := p1][t2 := p2];
            var found := Between(after, t1, t1);
            t1 in found && t2 in found && found[t1] == p1 && found[t2] == p2
  {
  }
}

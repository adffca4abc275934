/**
 * The persisted tables: `Race`, `RaceDetail` and `ScrapeLog`, held in memory
 * by a `Database` object whose methods stand for the SQL sessions.
 */
module Models {
  import opened Wrappers

  /** Milliseconds since the Unix epoch, in UTC. */
  type Instant = int

  /** One row of the `race` table. */
  datatype Race = Race(
    id: int,
    unibetId: string,
    name: string,
    meeting: string,
    raceTime: Instant,
    url: string,
    surface: Option<string>,
    distanceM: Option<int>,
    scrapedAt: Instant)

  /** The record the daily scrape builds for one race: every column except `id`. */
  datatype RaceData = RaceData(
    unibetId: string,
    name: string,
    meeting: string,
    raceTime: Instant,
    url: string,
    surface: Option<string>,
    distanceM: Option<int>,
    scrapedAt: Instant)

  /** A row with identity `id` after `setattr` of every key of `d`. */
  function WithData(id: int, d: RaceData): (r: Race)
    ensures r.id == id && r.unibetId == d.unibetId && r.raceTime == d.raceTime
  {
    Race(id, d.unibetId, d.name, d.meeting, d.raceTime, d.url, d.surface, d.distanceM, d.scrapedAt)
  }

  /** One row of the `racedetail` table; its JSON payload is not modelled. */
  datatype RaceDetail = RaceDetail(id: int, raceId: int, scrapedAt: Instant)

  datatype LogStatus = StatusOk | StatusError

  /** One row of the `scrapelog` table. */
  datatype ScrapeLog = ScrapeLog(
    jobType: string,
    startedAt: Instant,
    finishedAt: Instant,
    status: LogStatus,
    message: Option<string>)

  predicate IdsUnique(rows: seq<Race>) {
    forall i, j :: 0 <= i < j < |rows| ==> rows[i].id != rows[j].id
  }

  /**
   * No two rows share a `unibet_id`. The schema does not enforce it; it holds
   * because rows are only ever created by the upsert, which matches on `unibet_id`.
   */
  predicate UnibetUnique(rows: seq<Race>) {
    forall i, j :: 0 <= i < j < |rows| ==> rows[i].unibetId != rows[j].unibetId
  }

  predicate RowsValid(rows: seq<Race>) {
    && IdsUnique(rows)
    && UnibetUnique(rows)
    && forall i :: 0 <= i < |rows| ==> rows[i].id > 0
  }

  /** The largest id in the table, 0 when it is empty. */
  function MaxId(rows: seq<Race>): (m: int)
    ensures m >= 0
    ensures forall i :: 0 <= i < |rows| ==> rows[i].id <= m
    ensures m == 0 || exists i :: 0 <= i < |rows| && rows[i].id == m
  {
    if rows == [] then 0
    else
      var m := MaxId(rows[..|rows| - 1]);
      var last := rows[|rows| - 1].id;
      assert forall i :: 0 <= i < |rows| - 1 ==> rows[..|rows| - 1][i] == rows[i];
      if last > m then last else m
  }

  /**
   * The id SQLite gives the next inserted row: one more than the largest id in
   * the table (an INTEGER PRIMARY KEY without AUTOINCREMENT), so 1 in an empty table.
   */
  function NextId(rows: seq<Race>): (id: int)
    ensures id > 0
    ensures forall i :: 0 <= i < |rows| ==> rows[i].id < id
  {
    MaxId(rows) + 1
  }

  class Database {
    var races: seq<Race>
    var details: seq<RaceDetail>
    var logs: seq<ScrapeLog>

    ghost predicate Valid()
      reads this
    {
      RowsValid(races)
    }

    constructor ()
      ensures Valid()
      ensures races == [] && details == [] && logs == []
    {
      races, details, logs := [], [], [];
    }
  }

  /** The start instants of the stored races, in table order. */
  function RaceTimes(rows: seq<Race>): (times: seq<Instant>)
    ensures |times| == |rows|
    ensures forall i :: 0 <= i < |rows| ==> times[i] == rows[i].raceTime
  {
    if rows == [] then [] else RaceTimes(rows[..|rows| - 1]) + [rows[|rows| - 1].raceTime]
  }
}

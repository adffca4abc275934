/**
 * The daily scrape: converting the raw records read off the programme page,
 * upserting them into the `race` table by `unibet_id`, registering one scrape
 * job per race three minutes before its start, and writing the scrape log.
 */
module Daily {
  import opened Wrappers
  import opened PyText
  import opened Models
  import opened JobStore

  /** How long before its start a race's scrape job runs: three minutes. */
  const LEAD_MS: int := 180_000

  /** Misfire grace of a per-race job, in seconds. */
  const RACE_JOB_GRACE: nat := 60

  /** 0001-01-01T00:00:00Z, the first instant a `datetime` can hold. */
  const MIN_EPOCH_MS: int := -62_135_596_800_000

  /** 9999-12-31T22:59:59.999Z: later instants overflow once shifted to Paris time (UTC+1 in December). */
  const MAX_EPOCH_MS: int := 253_402_297_199_999

  /** One record as the page's list items give it; `epochMs` is None when the attribute is absent. */
  datatype RawRace = RawRace(
    unibetId: string,
    epochMs: Option<string>,
    url: string,
    meeting: string,
    name: string,
    distance: string)

  /** The exception `int(...)` raises on a distance such as `"m"`; it is not caught per record. */
  datatype ScrapeError = BadDistance(text: string)

  // ---------------------------------------------------------------------------
  // Converting raw records
  // ---------------------------------------------------------------------------

  /** `int(epoch_ms)` and the conversion to an aware datetime; None where either raises. */
  function ParseEpoch(text: Option<string>): (r: Option<Instant>)
    ensures r.Some? ==> MIN_EPOCH_MS <= r.value <= MAX_EPOCH_MS
  {
    match text
    case None => None
    case Some(t) =>
      match ParseInt(t)
      case None => None
      case Some(ms) => if MIN_EPOCH_MS <= ms <= MAX_EPOCH_MS then Some(ms) else None
  }

  /** An epoch written as a decimal integer within the datetime range is read back exactly. */
  lemma ParseEpochRoundTrip(ms: int)
    requires MIN_EPOCH_MS <= ms <= MAX_EPOCH_MS
    ensures ParseEpoch(Some(IntToString(ms))) == Some(ms)
  {
    ParseIntRoundTrip(ms);
  }

  /** `int(d.rstrip("m")) if d.endswith("m") else None`; Err where `int` raises. */
  function ParseDistance(text: string): (r: Result<Option<int>, ScrapeError>)
    ensures |text| == 0 || text[|text| - 1] != 'm' ==> r == Ok(None)
  {
    if |text| > 0 && text[|text| - 1] == 'm' then
      match ParseInt(RStripChar(text, 'm'))
      case Some(n) => Ok(Some(n))
      case None => Err(BadDistance(text))
    else
      Ok(None)
  }

  /** A number followed by one or more letters m is read as that number: `"2100m"` and `"2100mm"` give 2100. */
  lemma DistanceWithUnit(n: nat, k: nat)
    ensures ParseDistance(NatToString(n) + Ms(k + 1)) == Ok(Some(n as int))
  {
    var digits := NatToString(n);
    var t := digits + Ms(k + 1);
    assert t[|t| - 1] == 'm';
    assert RStripChar(t, 'm') == digits by {
      RStripMs(digits, k + 1);
    }
    assert ParseInt(digits) == Some(n as int) by {
      assert IntToString(n) == digits;
      NonNegativeRoundTrip(n);
    }
  }

  /** Letters m without a number make `int` raise, which aborts the whole extraction. */
  lemma DistanceUnitOnly(k: nat)
    ensures ParseDistance(Ms(k + 1)).Err?
  {
    RStripMs([], k + 1);
    assert [] + Ms(k + 1) == Ms(k + 1);
  }

  /** `k` letters m. */
  function Ms(k: nat): (s: string)
    ensures |s| == k && forall i :: 0 <= i < k ==> s[i] == 'm'
  {
    if k == 0 then [] else Ms(k - 1) + ['m']
  }

  lemma {:induction false} RStripMs(s: string, k: nat)
    requires s == [] || s[|s| - 1] != 'm'
    ensures RStripChar(s + Ms(k), 'm') == s
  {
    if k > 0 {
      assert (s + Ms(k))[..|s + Ms(k)| - 1] == s + Ms(k - 1);
      RStripMs(s, k - 1);
    } else {
      assert s + Ms(k) == s;
    }
  }

  /**
   * The body of the conversion loop for one record: Ok(None) when the epoch
   * cannot be read (the record is skipped), Err when the distance raises.
   */
  function ConvertRecord(r: RawRace, scrapedAt: Instant): (c: Result<Option<RaceData>, ScrapeError>)
    ensures c.Err? <==> ParseEpoch(r.epochMs).Some? && ParseDistance(r.distance).Err?
    ensures c == Ok(None) <==> ParseEpoch(r.epochMs).None?
    ensures c.Ok? && c.value.Some? ==>
      var d := c.value.value;
      && d.unibetId == r.unibetId && ParseEpoch(r.epochMs) == Some(d.raceTime)
      && d.name == r.name && d.meeting == r.meeting && d.url == r.url
      && Ok(d.distanceM) == ParseDistance(r.distance)
      && d.surface.None? && d.scrapedAt == scrapedAt
  {
    match ParseEpoch(r.epochMs)
    case None => Ok(None)
    case Some(ms) =>
      match ParseDistance(r.distance)
      case Err(e) => Err(e)
      case Ok(dist) => Ok(Some(RaceData(r.unibetId, r.name, r.meeting, ms, r.url, None, dist, scrapedAt)))
  }

  type Conversion = Result<Option<RaceData>, ScrapeError>

  /** The per-record outcomes, in input order. */
  function Conversions(raw: seq<RawRace>, scrapedAt: Instant): seq<Conversion> {
    seq(|raw|, i requires 0 <= i < |raw| => ConvertRecord(raw[i], scrapedAt))
  }

  /** The loop over the outcomes: stop at the first error, keep the converted records, at most one per outcome. */
  function Collect(cs: seq<Conversion>): (r: Result<seq<RaceData>, ScrapeError>)
    ensures r.Ok? ==> |r.value| <= |cs|
  {
    if cs == [] then Ok([])
    else
      match Collect(cs[..|cs| - 1])
      case Err(e) => Err(e)
      case Ok(done) =>
        match cs[|cs| - 1]
        case Err(e) => Err(e)
        case Ok(None) => Ok(done)
        case Ok(Some(d)) => Ok(done + [d])
  }

  /** What the conversion loop returns for `raw`, or the error it raises: never more races than records. */
  function ExtractAll(raw: seq<RawRace>, scrapedAt: Instant): (r: Result<seq<RaceData>, ScrapeError>)
    ensures r.Ok? ==> |r.value| <= |raw|
  {
    Collect(Conversions(raw, scrapedAt))
  }

  /** Running the loop over `a` then over `b`: the first error wins, otherwise the outputs concatenate. */
  function Chain(x: Result<seq<RaceData>, ScrapeError>, y: Result<seq<RaceData>, ScrapeError>): Result<seq<RaceData>, ScrapeError> {
    match x
    case Err(e) => Err(e)
    case Ok(p) =>
      match y
      case Err(e) => Err(e)
      case Ok(q) => Ok(p + q)
  }

  lemma {:induction false} CollectAppend(a: seq<Conversion>, b: seq<Conversion>)
    ensures Collect(a + b) == Chain(Collect(a), Collect(b))
  {
    if b == [] {
      assert a + b == a;
      match Collect(a)
      case Err(_) =>
      case Ok(p) => assert p + [] == p;
    } else {
      var b' := b[..|b| - 1];
      assert (a + b)[..|a + b| - 1] == a + b';
      assert (a + b)[|a + b| - 1] == b[|b| - 1];
      CollectAppend(a, b');
      match Collect(a)
      case Err(_) =>
      case Ok(p) =>
        match Collect(b')
        case Err(_) =>
        case Ok(q) =>
          match b[|b| - 1]
          case Err(_) =>
          case Ok(None) =>
          case Ok(Some(d)) => assert (p + q) + [d] == p + (q + [d]);
    }
  }

  lemma ConversionsAppend(a: seq<RawRace>, b: seq<RawRace>, at: Instant)
    ensures Conversions(a + b, at) == Conversions(a, at) + Conversions(b, at)
  {
    var whole, parts := Conversions(a + b, at), Conversions(a, at) + Conversions(b, at);
    forall i | 0 <= i < |whole| ensures whole[i] == parts[i] {
      if i < |a| {
        assert (a + b)[i] == a[i];
      } else {
        assert (a + b)[i] == b[i - |a|];
      }
    }
  }

  /** The conversion is record by record: kept records stay in input order. */
  lemma ExtractAppend(a: seq<RawRace>, b: seq<RawRace>, at: Instant)
    ensures ExtractAll(a + b, at) == Chain(ExtractAll(a, at), ExtractAll(b, at))
  {
    ConversionsAppend(a, b, at);
    CollectAppend(Conversions(a, at), Conversions(b, at));
  }

  /** A skipped record leaves the loop's outcome as it was. */
  lemma CollectSkip(x: seq<Conversion>, y: seq<Conversion>)
    ensures Collect(x + [Ok(None)] + y) == Collect(x + y)
  {
    var skip: seq<Conversion> := [Ok(None)];
    CollectAppend(x + skip, y);
    CollectAppend(x, skip);
    CollectAppend(x, y);
    assert skip[..0] == [];
    match Collect(x)
    case Err(_) =>
    case Ok(p) => assert p + [] == p;
  }

  /** A record whose epoch cannot be read is dropped without affecting the others. */
  lemma BadEpochSkipped(a: seq<RawRace>, r: RawRace, b: seq<RawRace>, at: Instant)
    requires ParseEpoch(r.epochMs).None?
    ensures ExtractAll(a + [r] + b, at) == ExtractAll(a + b, at)
  {
    ConversionsAppend(a + [r], b, at);
    ConversionsAppend(a, [r], at);
    ConversionsAppend(a, b, at);
    assert Conversions([r], at) == [Ok(None)];
    CollectSkip(Conversions(a, at), Conversions(b, at));
  }

  lemma {:induction false} CollectOkIff(cs: seq<Conversion>)
    ensures Collect(cs).Ok? <==> forall i :: 0 <= i < |cs| ==> cs[i].Ok?
  {
    if cs != [] {
      var init := cs[..|cs| - 1];
      CollectOkIff(init);
      assert forall i :: 0 <= i < |init| ==> init[i] == cs[i];
    }
  }

  /** The loop raises exactly when some record has a readable epoch and a distance `int` rejects. */
  lemma ExtractOkIff(raw: seq<RawRace>, at: Instant)
    ensures ExtractAll(raw, at).Ok? <==>
      forall i :: 0 <= i < |raw| ==> ParseEpoch(raw[i].epochMs).None? || ParseDistance(raw[i].distance).Ok?
  {
    var cs := Conversions(raw, at);
    CollectOkIff(cs);
    forall i | 0 <= i < |raw|
      ensures cs[i].Ok? <==> ParseEpoch(raw[i].epochMs).None? || ParseDistance(raw[i].distance).Ok?
    {
      ConversionOk(raw[i], at);
    }
  }

  lemma ConversionOk(r: RawRace, at: Instant)
    ensures ConvertRecord(r, at).Ok? <==> ParseEpoch(r.epochMs).None? || ParseDistance(r.distance).Ok?
  {
  }

  /** One more outcome: an error stops the loop, Ok(None) adds nothing, a record is appended. */
  lemma CollectStep(cs: seq<Conversion>, i: nat, races: seq<RaceData>)
    requires i < |cs| && Collect(cs[..i]) == Ok(races)
    ensures Collect(cs[..i + 1]) == match cs[i]
      case Err(e) => Err(e)
      case Ok(None) => Ok(races)
      case Ok(Some(d)) => Ok(races + [d])
  {
    assert cs[..i + 1][..i] == cs[..i];
  }

  /** An error stops the loop for good. */
  lemma CollectStops(cs: seq<Conversion>, i: nat)
    requires i < |cs| && Collect(cs[..i + 1]).Err?
    ensures Collect(cs) == Collect(cs[..i + 1])
  {
    assert cs[..i + 1] + cs[i + 1..] == cs;
    CollectAppend(cs[..i + 1], cs[i + 1..]);
  }

  /** `_extract_races` after the page has been read: the loop that builds `races`. */
  method ExtractRaces(raw: seq<RawRace>, scrapedAt: Instant) returns (res: Result<seq<RaceData>, ScrapeError>)
    ensures res == ExtractAll(raw, scrapedAt)
  {
    ghost var cs := Conversions(raw, scrapedAt);
    var races: seq<RaceData> := [];
    for i := 0 to |raw|
      invariant Collect(cs[..i]) == Ok(races)
    {
      var converted := ConvertRecord(raw[i], scrapedAt);
      CollectStep(cs, i, races);
      match converted {
        case Err(e) =>
          CollectStops(cs, i);
          return Err(e);
        case Ok(None) =>
        case Ok(Some(d)) => races := races + [d];
      }
    }
    assert cs[..|raw|] == cs;
    res := Ok(races);
  }

  // ---------------------------------------------------------------------------
  // The upsert into the race table
  // ---------------------------------------------------------------------------

  /** `select(Race).where(Race.unibet_id == uid).first()`, as a position in the table. */
  function FindByUnibet(rows: seq<Race>, uid: string): (r: Option<nat>)
    ensures r.Some? ==> r.value < |rows| && rows[r.value].unibetId == uid
    ensures r.Some? ==> forall k :: 0 <= k < r.value ==> rows[k].unibetId != uid
    ensures r.None? ==> forall k :: 0 <= k < |rows| ==> rows[k].unibetId != uid
  {
    if rows == [] then None
    else if rows[0].unibetId == uid then Some(0)
    else
      match FindByUnibet(rows[1..], uid)
      case Some(k) => Some(k + 1)
      case None => None
  }

  /** One iteration of the upsert loop: the new table and the position of the row saved. */
  function UpsertOne(rows: seq<Race>, d: RaceData): (r: (seq<Race>, nat))
    ensures |rows| <= |r.0| <= |rows| + 1 && r.1 < |r.0|
  {
    match FindByUnibet(rows, d.unibetId)
    case Some(k) => (rows[k := WithData(rows[k].id, d)], k)
    case None => (rows + [WithData(NextId(rows), d)], |rows|)
  }

  /** The whole loop: the table after the batch, and `saved` as positions in it, one per record. */
  function UpsertAll(rows: seq<Race>, batch: seq<RaceData>): (r: (seq<Race>, seq<nat>))
    ensures |rows| <= |r.0| && |r.1| == |batch|
    ensures forall j :: 0 <= j < |batch| ==> r.1[j] < |r.0|
  {
    if batch == [] then (rows, [])
    else
      var (t, saved) := UpsertAll(rows, batch[..|batch| - 1]);
      var (t', p) := UpsertOne(t, batch[|batch| - 1]);
      (t', saved + [p])
  }

  /** Some record of the batch has this `unibet_id`. */
  ghost predicate InBatch(batch: seq<RaceData>, uid: string) {
    exists j :: 0 <= j < |batch| && batch[j].unibetId == uid
  }

  /** The last record of the batch with this `unibet_id`: the one whose values end up in the row. */
  function LastFor(batch: seq<RaceData>, uid: string): (d: RaceData)
    requires InBatch(batch, uid)
    ensures d.unibetId == uid
  {
    var last := batch[|batch| - 1];
    if last.unibetId == uid then last
    else
      var init := batch[..|batch| - 1];
      assert exists j :: 0 <= j < |init| && init[j].unibetId == uid by {
        var j :| 0 <= j < |batch| && batch[j].unibetId == uid;
        assert init[j] == batch[j];
      }
      LastFor(init, uid)
  }

  /**
   * One record: a row with the same `unibet_id` gets every field of the record
   * and keeps its id and place; without one a row with a fresh id is appended;
   * no other row changes.
   */
  lemma UpsertOneEffect(rows: seq<Race>, d: RaceData)
    requires RowsValid(rows)
    ensures var (t, p) := UpsertOne(rows, d);
      && RowsValid(t)
      && p < |t| && t[p].unibetId == d.unibetId
      && (|t| == |rows| || |t| == |rows| + 1)
      && (|t| == |rows| <==> exists k :: 0 <= k < |rows| && rows[k].unibetId == d.unibetId)
      && (forall k :: 0 <= k < |rows| ==>
            t[k] == if rows[k].unibetId == d.unibetId then WithData(rows[k].id, d) else rows[k])
      && (|t| == |rows| + 1 ==> t[|rows|] == WithData(NextId(rows), d))
  {
    var (t, p) := UpsertOne(rows, d);
    UpsertOneKeeps(rows, d);
    match FindByUnibet(rows, d.unibetId)
    case Some(k) =>
      assert forall i :: 0 <= i < |rows| && rows[i].unibetId == d.unibetId ==> i == k;
    case None =>
  }

  /** What one record leaves in place: earlier rows keep id and `unibet_id`; an appended row gets the next id. */
  lemma UpsertOneKeeps(rows: seq<Race>, d: RaceData)
    ensures var (t, p) := UpsertOne(rows, d);
      && t[p].unibetId == d.unibetId
      && (forall k :: 0 <= k < |rows| ==> t[k].id == rows[k].id && t[k].unibetId == rows[k].unibetId)
      && (|t| > |rows| ==> t[|rows|].id == NextId(rows))
  {
  }

  lemma InBatchSnoc(batch: seq<RaceData>, d: RaceData, uid: string)
    ensures InBatch(batch + [d], uid) <==> InBatch(batch, uid) || d.unibetId == uid
    ensures InBatch(batch + [d], uid) ==>
      LastFor(batch + [d], uid) == if d.unibetId == uid then d else LastFor(batch, uid)
  {
    var b := batch + [d];
    assert b[..|b| - 1] == batch;
    if InBatch(batch, uid) {
      var j :| 0 <= j < |batch| && batch[j].unibetId == uid;
      assert b[j] == batch[j];
    }
    if InBatch(b, uid) && d.unibetId != uid {
      var j :| 0 <= j < |b| && b[j].unibetId == uid;
      assert j < |batch| && batch[j] == b[j];
    }
    if d.unibetId == uid {
      assert b[|batch|] == d;
    }
  }

  /**
   * The upsert never changes a stored row's place, id or `unibet_id`, and
   * keeps ids and `unibet_id`s unique.
   */
  lemma {:induction false} UpsertAllFrame(rows: seq<Race>, batch: seq<RaceData>)
    requires RowsValid(rows)
    ensures var t := UpsertAll(rows, batch).0;
      && RowsValid(t)
      && (forall k :: 0 <= k < |rows| ==> t[k].id == rows[k].id && t[k].unibetId == rows[k].unibetId)
  {
    UpsertAllKeeps(rows, batch);
    if batch != [] {
      var init := batch[..|batch| - 1];
      UpsertAllFrame(rows, init);
      UpsertOneEffect(UpsertAll(rows, init).0, batch[|batch| - 1]);
    }
  }

  /** Stored rows keep their place, id and `unibet_id`. */
  lemma {:induction false} UpsertAllKeeps(rows: seq<Race>, batch: seq<RaceData>)
    ensures var t := UpsertAll(rows, batch).0;
      forall k :: 0 <= k < |rows| ==> t[k].id == rows[k].id && t[k].unibetId == rows[k].unibetId
  {
    if batch != [] {
      var init := batch[..|batch| - 1];
      UpsertAllKeeps(rows, init);
      UpsertOneKeeps(UpsertAll(rows, init).0, batch[|batch| - 1]);
    }
  }

  /** Appended rows get ids above every id stored before the batch. */
  lemma {:induction false} UpsertAllFreshIds(rows: seq<Race>, batch: seq<RaceData>)
    ensures var t := UpsertAll(rows, batch).0;
      forall k :: |rows| <= k < |t| ==> t[k].id > MaxId(rows)
  {
    if batch != [] {
      var init := batch[..|batch| - 1];
      var d := batch[|batch| - 1];
      UpsertAllFreshIds(rows, init);
      UpsertAllKeeps(rows, init);
      var t1 := UpsertAll(rows, init).0;
      UpsertOneKeeps(t1, d);
      var t := UpsertAll(rows, batch).0;
      assert MaxId(rows) < NextId(t1) by {
        if MaxId(rows) != 0 {
          var i :| 0 <= i < |rows| && rows[i].id == MaxId(rows);
          assert t1[i].id == rows[i].id;
        }
      }
      forall k | |rows| <= k < |t| ensures t[k].id > MaxId(rows) {
        if k < |t1| {
          assert t[k].id == t1[k].id;
        }
      }
    }
  }

  /** `saved[j]` is the row holding record `j`. */
  lemma {:induction false} UpsertAllSaved(rows: seq<Race>, batch: seq<RaceData>)
    ensures var (t, saved) := UpsertAll(rows, batch);
      forall j :: 0 <= j < |batch| ==> t[saved[j]].unibetId == batch[j].unibetId
  {
    if batch != [] {
      var init := batch[..|batch| - 1];
      UpsertAllSaved(rows, init);
      var (t0, s0) := UpsertAll(rows, init);
      var (t1, p) := UpsertOne(t0, batch[|batch| - 1]);
      UpsertOneKeeps(t0, batch[|batch| - 1]);
      forall j | 0 <= j < |batch| ensures t1[(s0 + [p])[j]].unibetId == batch[j].unibetId {
        if j < |init| {
          assert batch[j] == init[j] && (s0 + [p])[j] == s0[j];
        }
      }
    }
  }

  /**
   * A stored row whose `unibet_id` occurs in the batch ends up holding the
   * last such record under its own id; any other stored row is untouched.
   */
  lemma {:induction false} UpsertAllStored(rows: seq<Race>, batch: seq<RaceData>)
    requires RowsValid(rows)
    ensures var t := UpsertAll(rows, batch).0;
      forall k :: 0 <= k < |rows| ==>
        t[k] == if InBatch(batch, rows[k].unibetId)
                then WithData(rows[k].id, LastFor(batch, rows[k].unibetId))
                else rows[k]
  {
    if batch != [] {
      var init := batch[..|batch| - 1];
      var d := batch[|batch| - 1];
      assert batch == init + [d];
      UpsertAllStored(rows, init);
      UpsertAllFrame(rows, init);
      var t1 := UpsertAll(rows, init).0;
      UpsertOneEffect(t1, d);
      forall k | 0 <= k < |rows| {
        InBatchSnoc(init, d, rows[k].unibetId);
      }
    }
  }

  /** Every appended row holds a record of the batch: the last one with its `unibet_id`. */
  lemma {:induction false} UpsertAllAppended(rows: seq<Race>, batch: seq<RaceData>)
    requires RowsValid(rows)
    ensures var t := UpsertAll(rows, batch).0;
      forall k :: |rows| <= k < |t| ==>
        InBatch(batch, t[k].unibetId) && t[k] == WithData(t[k].id, LastFor(batch, t[k].unibetId))
  {
    if batch != [] {
      var init := batch[..|batch| - 1];
      var d := batch[|batch| - 1];
      assert batch == init + [d];
      UpsertAllAppended(rows, init);
      UpsertAllFrame(rows, init);
      var t1 := UpsertAll(rows, init).0;
      UpsertOneEffect(t1, d);
      var t := UpsertAll(rows, batch).0;
      forall k | |rows| <= k < |t| {
        InBatchSnoc(init, d, t[k].unibetId);
      }
    }
  }

  /** A batch whose every `unibet_id` is already stored appends no row. */
  lemma {:induction false} UpsertNoNewRows(rows: seq<Race>, batch: seq<RaceData>)
    requires RowsValid(rows)
    requires forall j :: 0 <= j < |batch| ==> exists k :: 0 <= k < |rows| && rows[k].unibetId == batch[j].unibetId
    ensures |UpsertAll(rows, batch).0| == |rows|
  {
    if batch != [] {
      var init := batch[..|batch| - 1];
      var d := batch[|batch| - 1];
      assert forall j :: 0 <= j < |init| ==> init[j] == batch[j];
      UpsertNoNewRows(rows, init);
      UpsertAllFrame(rows, init);
      var t1 := UpsertAll(rows, init).0;
      UpsertOneEffect(t1, d);
      var k :| 0 <= k < |rows| && rows[k].unibetId == d.unibetId;
      assert t1[k].unibetId == d.unibetId;
    }
  }

  /** Upserting the same batch again changes nothing, so in particular the race count stays the same. */
  lemma UpsertIdempotent(rows: seq<Race>, batch: seq<RaceData>)
    requires RowsValid(rows)
    ensures var t := UpsertAll(rows, batch).0;
      UpsertAll(t, batch).0 == t
  {
    var (t, saved) := UpsertAll(rows, batch);
    UpsertAllFrame(rows, batch);
    UpsertAllSaved(rows, batch);
    forall j | 0 <= j < |batch|
      ensures exists k :: 0 <= k < |t| && t[k].unibetId == batch[j].unibetId
    {
      assert t[saved[j]].unibetId == batch[j].unibetId;
    }
    UpsertAllSettled(rows, batch);
    UpsertOfSettled(t, batch);
  }

  /** Every row whose `unibet_id` occurs in the batch already holds the last such record. */
  ghost predicate Settled(t: seq<Race>, batch: seq<RaceData>) {
    forall k :: 0 <= k < |t| && InBatch(batch, t[k].unibetId) ==>
      t[k] == WithData(t[k].id, LastFor(batch, t[k].unibetId))
  }

  lemma UpsertAllSettled(rows: seq<Race>, batch: seq<RaceData>)
    requires RowsValid(rows)
    ensures Settled(UpsertAll(rows, batch).0, batch)
  {
    var t := UpsertAll(rows, batch).0;
    UpsertAllFrame(rows, batch);
    UpsertAllStored(rows, batch);
    UpsertAllAppended(rows, batch);
    forall k | 0 <= k < |t| && InBatch(batch, t[k].unibetId)
      ensures t[k] == WithData(t[k].id, LastFor(batch, t[k].unibetId))
    {
      if k < |rows| {
        assert t[k].unibetId == rows[k].unibetId && t[k].id == rows[k].id;
      }
    }
  }

  lemma UpsertOfSettled(t: seq<Race>, batch: seq<RaceData>)
    requires RowsValid(t) && Settled(t, batch)
    requires forall j :: 0 <= j < |batch| ==> exists k :: 0 <= k < |t| && t[k].unibetId == batch[j].unibetId
    ensures UpsertAll(t, batch).0 == t
  {
    UpsertNoNewRows(t, batch);
    UpsertAllStored(t, batch);
  }

  /** `sess.refresh(r)` for each saved object: the rows at the saved positions. */
  function SavedRows(rows: seq<Race>, saved: seq<nat>): seq<Race>
    requires forall j :: 0 <= j < |saved| ==> saved[j] < |rows|
  {
    seq(|saved|, j requires 0 <= j < |saved| => rows[saved[j]])
  }

  /** One more record of the batch is one more `UpsertOne`. */
  lemma UpsertAllStep(rows: seq<Race>, batch: seq<RaceData>, i: nat)
    requires i < |batch|
    ensures var (t, saved) := UpsertAll(rows, batch[..i]);
      var (t', p) := UpsertOne(t, batch[i]);
      UpsertAll(rows, batch[..i + 1]) == (t', saved + [p])
  {
    assert batch[..i + 1][..i] == batch[..i];
  }

  /** The upsert loop of `run_daily_scrape` with its commit. */
  method UpsertRaces(db: Database, batch: seq<RaceData>) returns (saved: seq<nat>)
    requires db.Valid()
    modifies db
    ensures db.Valid()
    ensures (db.races, saved) == UpsertAll(old(db.races), batch)
    ensures db.details == old(db.details) && db.logs == old(db.logs)
  {
    ghost var rows0 := db.races;
    saved := [];
    for i := 0 to |batch|
      invariant (db.races, saved) == UpsertAll(rows0, batch[..i])
      invariant db.details == old(db.details) && db.logs == old(db.logs)
    {
      UpsertAllStep(rows0, batch, i);
      var d := batch[i];
      ghost var step := UpsertOne(db.races, d);
      var found := FindByUnibet(db.races, d.unibetId);
      match found
      case Some(k) =>
        db.races := db.races[k := WithData(db.races[k].id, d)];
        saved := saved + [k];
      case None =>
        var id := NextId(db.races);
        db.races := db.races + [WithData(id, d)];
        saved := saved + [|db.races| - 1];
      assert db.races == step.0 && saved[|saved| - 1] == step.1;
    }
    assert batch[..|batch|] == batch;
    UpsertAllFrame(rows0, batch);
  }

  // ---------------------------------------------------------------------------
  // Per-race scrape jobs
  // ---------------------------------------------------------------------------

  /** `f"race_{race.id}"`. */
  function RaceJobId(id: int): string {
    "race_" + IntToString(id)
  }

  /** Different races never share a job id. */
  lemma RaceJobIdInjective(a: int, b: int)
    requires RaceJobId(a) == RaceJobId(b)
    ensures a == b
  {
    assert IntToString(a) == RaceJobId(a)[5..];
    assert IntToString(b) == RaceJobId(b)[5..];
    IntToStringInjective(a, b);
  }

  /** The scrape job for a race: at its start minus three minutes, with the race id as argument. */
  function RaceJob(r: Race): Job {
    Job(ScrapeRace, RunAt(r.raceTime - LEAD_MS), [r.id], Some(RACE_JOB_GRACE))
  }

  /** A race whose job time is still in the future. */
  predicate Upcoming(r: Race, now: Instant) {
    r.raceTime - LEAD_MS > now
  }

  /** One iteration of the per-race loop. */
  function AddRaceJob(jobs: map<string, Job>, r: Race, now: Instant): map<string, Job> {
    if !Upcoming(r, now) then jobs
    else if RaceJobId(r.id) in jobs then jobs
    else jobs[RaceJobId(r.id) := RaceJob(r)]
  }

  /**
   * The job store after `_schedule_per_race_jobs(races)`. A job that exists
   * already is never touched, even when its race's start has moved.
   */
  function PlanRaceJobs(jobs: map<string, Job>, races: seq<Race>, now: Instant): (r: map<string, Job>)
    ensures forall k :: k in jobs ==> k in r && r[k] == jobs[k]
  {
    if races == [] then jobs
    else AddRaceJob(PlanRaceJobs(jobs, races[..|races| - 1], now), races[|races| - 1], now)
  }

  /** Every job added is the scrape job of an upcoming race of the list, under that race's id. */
  lemma {:induction false} PlanAddsOnlyRaceJobs(jobs: map<string, Job>, races: seq<Race>, now: Instant)
    ensures var r := PlanRaceJobs(jobs, races, now);
      forall k :: k in r && k !in jobs ==>
        exists i :: 0 <= i < |races| && k == RaceJobId(races[i].id) && r[k] == RaceJob(races[i]) && Upcoming(races[i], now)
  {
    if races != [] {
      var init := races[..|races| - 1];
      PlanAddsOnlyRaceJobs(jobs, init, now);
      assert forall i :: 0 <= i < |init| ==> init[i] == races[i];
    }
  }

  /** After the call every upcoming race of the list has a job under its id. */
  lemma {:induction false} PlanCoversUpcoming(jobs: map<string, Job>, races: seq<Race>, now: Instant)
    ensures var r := PlanRaceJobs(jobs, races, now);
      forall i :: 0 <= i < |races| && Upcoming(races[i], now) ==> RaceJobId(races[i].id) in r
  {
    if races != [] {
      var init := races[..|races| - 1];
      PlanCoversUpcoming(jobs, init, now);
      var mid := PlanRaceJobs(jobs, init, now);
      AddRaceJobCovers(mid, races[|races| - 1], now);
      var r := PlanRaceJobs(jobs, races, now);
      forall i | 0 <= i < |races| && Upcoming(races[i], now) ensures RaceJobId(races[i].id) in r {
        if i < |init| {
          assert races[i] == init[i];
        }
      }
    }
  }

  /** One iteration keeps every id and, for an upcoming race, leaves its id present. */
  lemma AddRaceJobCovers(jobs: map<string, Job>, r: Race, now: Instant)
    ensures jobs.Keys <= AddRaceJob(jobs, r, now).Keys
    ensures Upcoming(r, now) ==> RaceJobId(r.id) in AddRaceJob(jobs, r, now)
  {
  }

  /** A race whose job time has passed gets no job, unless it had one already. */
  lemma PlanSkipsStale(jobs: map<string, Job>, races: seq<Race>, now: Instant, i: nat)
    requires i < |races| && RaceJobId(races[i].id) !in jobs
    requires forall j :: 0 <= j < |races| && races[j].id == races[i].id ==> !Upcoming(races[j], now)
    ensures RaceJobId(races[i].id) !in PlanRaceJobs(jobs, races, now)
  {
    var r := PlanRaceJobs(jobs, races, now);
    PlanAddsOnlyRaceJobs(jobs, races, now);
    if RaceJobId(races[i].id) in r {
      var j :| 0 <= j < |races| && RaceJobId(races[i].id) == RaceJobId(races[j].id) && Upcoming(races[j], now);
      RaceJobIdInjective(races[i].id, races[j].id);
    }
  }

  /** When every upcoming race already has a job, the call changes nothing. */
  lemma {:induction false} PlanNoOp(jobs: map<string, Job>, races: seq<Race>, now: Instant)
    requires forall i :: 0 <= i < |races| && Upcoming(races[i], now) ==> RaceJobId(races[i].id) in jobs
    ensures PlanRaceJobs(jobs, races, now) == jobs
  {
    if races != [] {
      PlanNoOp(jobs, races[..|races| - 1], now);
    }
  }

  /** Calling `_schedule_per_race_jobs` twice with the same races and clock adds nothing the second time. */
  lemma PlanIdempotent(jobs: map<string, Job>, races: seq<Race>, now: Instant)
    ensures var r := PlanRaceJobs(jobs, races, now);
      PlanRaceJobs(r, races, now) == r
  {
    PlanCoversUpcoming(jobs, races, now);
    PlanNoOp(PlanRaceJobs(jobs, races, now), races, now);
  }

  /** `_schedule_per_race_jobs`: the loop over the saved races. */
  method ScheduleRaceJobs(sched: Scheduler, races: seq<Race>, now: Instant)
    modifies sched
    ensures sched.jobs == PlanRaceJobs(old(sched.jobs), races, now)
  {
    ghost var jobs0 := sched.jobs;
    for i := 0 to |races|
      invariant sched.jobs == PlanRaceJobs(jobs0, races[..i], now)
    {
      assert races[..i + 1][..i] == races[..i];
      var race := races[i];
      var runTime := race.raceTime - LEAD_MS;
      if runTime <= now {
        continue;
      }
      var jobId := RaceJobId(race.id);
      if sched.GetJob(jobId).Some? {
        continue;
      }
      sched.AddJob(jobId, Job(ScrapeRace, RunAt(runTime), [race.id], Some(RACE_JOB_GRACE)));
    }
    assert races[..|races|] == races;
  }

  // ---------------------------------------------------------------------------
  // run_daily_scrape
  // ---------------------------------------------------------------------------

  /** What reading the programme page gives: no browser at all, a failure inside the try block, or the raw records. */
  datatype Feed = BrowserUnavailable | PageFailed | Page(raw: seq<RawRace>)

  /** The clock readings of one run: `started_at`, `scraped_at`, the scheduling `now` and `finished_at`. */
  datatype Clock = Clock(startedAt: Instant, scrapedAt: Instant, now: Instant, finishedAt: Instant)

  datatype DailyOutcome = DailyOutcome(races: seq<Race>, jobs: map<string, Job>, log: ScrapeLog)

  function ErrorLog(clock: Clock): ScrapeLog {
    ScrapeLog("daily", clock.startedAt, clock.finishedAt, StatusError, Some("daily scrape error"))
  }

  function SavedLog(clock: Clock, count: nat): ScrapeLog {
    ScrapeLog("daily", clock.startedAt, clock.finishedAt, StatusOk, Some("Saved " + IntToString(count) + " races"))
  }

  /**
   * The tables, the job store and the log row after a run that got past the
   * browser launch. From there on the log row starts as "ok", turns "error"
   * on any failure and always gets `finished_at`; on failure the tables and
   * the jobs are left as they were.
   */
  function DailyScrape(rows: seq<Race>, jobs: map<string, Job>, feed: Feed, clock: Clock): (o: DailyOutcome)
    requires !feed.BrowserUnavailable?
    ensures o.log.jobType == "daily"
    ensures o.log.startedAt == clock.startedAt && o.log.finishedAt == clock.finishedAt
    ensures o.log.status == StatusOk <==> feed.Page? && ExtractAll(feed.raw, clock.scrapedAt).Ok?
    ensures o.log.status == StatusError ==> o.races == rows && o.jobs == jobs
  {
    match feed
    case PageFailed => DailyOutcome(rows, jobs, ErrorLog(clock))
    case Page(raw) =>
      match ExtractAll(raw, clock.scrapedAt)
      case Err(_) => DailyOutcome(rows, jobs, ErrorLog(clock))
      case Ok(data) =>
        var (t, saved) := UpsertAll(rows, data);
        DailyOutcome(t, PlanRaceJobs(jobs, SavedRows(t, saved), clock.now), SavedLog(clock, |saved|))
  }

  /** A successful run keeps every stored race and logs one saved entry per converted record. */
  lemma DailyScrapeSaves(rows: seq<Race>, jobs: map<string, Job>, raw: seq<RawRace>, clock: Clock)
    requires RowsValid(rows)
    requires ExtractAll(raw, clock.scrapedAt).Ok?
    ensures var data := ExtractAll(raw, clock.scrapedAt).value;
      var o := DailyScrape(rows, jobs, Page(raw), clock);
      && RowsValid(o.races)
      && |o.races| >= |rows|
      && (forall k :: 0 <= k < |rows| ==> o.races[k].id == rows[k].id)
      && o.log == SavedLog(clock, |data|)
      && (forall k :: k in jobs ==> k in o.jobs && o.jobs[k] == jobs[k])
  {
    var data := ExtractAll(raw, clock.scrapedAt).value;
    UpsertAllFrame(rows, data);
    var (t, saved) := UpsertAll(rows, data);
  }

  /**
   * `run_daily_scrape`. `raised` is true when the browser cannot be launched:
   * that happens before the try block, so nothing is logged and the exception
   * reaches the caller.
   */
  method RunDailyScrape(db: Database, sched: Scheduler, feed: Feed, clock: Clock) returns (raised: bool)
    requires db.Valid()
    modifies db, sched
    ensures db.Valid() && db.details == old(db.details)
    ensures raised <==> feed.BrowserUnavailable?
    ensures raised ==> db.races == old(db.races) && db.logs == old(db.logs) && sched.jobs == old(sched.jobs)
    ensures !raised ==>
      var o := DailyScrape(old(db.races), old(sched.jobs), feed, clock);
      db.races == o.races && sched.jobs == o.jobs && db.logs == old(db.logs) + [o.log]
  {
    if feed.BrowserUnavailable? {
      return true;
    }
    var log := ErrorLog(clock);
    match feed {
      case PageFailed =>
      case Page(raw) =>
        var extracted := ExtractRaces(raw, clock.scrapedAt);
        match extracted {
          case Err(_) =>
          case Ok(data) =>
            var saved := UpsertRaces(db, data);
            var savedRaces := SavedRows(db.races, saved);
            ScheduleRaceJobs(sched, savedRaces, clock.now);
            log := SavedLog(clock, |saved|);
        }
    }
    db.logs := db.logs + [log];
    raised := false;
  }
}

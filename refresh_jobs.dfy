/**
 * The refresh jobs of `app/scheduler_refresh.py`: registering the next
 * database refresh, the hourly check that supersedes pending refreshes, the
 * startup registration, the manual trigger and the refresh itself.
 */
module RefreshJobs {
  import opened Wrappers
  import opened Models
  import opened JobStore
  import opened RefreshPlanner
  import opened Daily

  const IMMEDIATE_ID: string := "db_refresh_immediate"
  const DELAYED_ID: string := "db_refresh_delayed"
  const HOURLY_ID: string := "hourly_refresh_check"
  const INITIAL_ID: string := "initial_refresh_check"

  /** An immediate refresh runs five seconds after it is registered. */
  const IMMEDIATE_DELAY_MS: int := 5_000

  /** The first check runs thirty seconds after startup. */
  const INITIAL_DELAY_MS: int := 30_000

  /** Misfire grace of the refresh jobs and of the hourly check, in seconds. */
  const REFRESH_GRACE: nat := 300

  /** The id under which a plan is registered. */
  function RefreshId(plan: Plan): string {
    if plan.SafeNow? then IMMEDIATE_ID else DELAYED_ID
  }

  /** The job registered for a plan: five seconds from now, or at the planned instant. */
  function RefreshJob(plan: Plan, now: Instant): Job {
    match plan
    case SafeNow => Job(RefreshDatabase, RunAt(now + IMMEDIATE_DELAY_MS), [], Some(REFRESH_GRACE))
    case RefreshAt(t) => Job(RefreshDatabase, RunAt(t), [], Some(REFRESH_GRACE))
  }

  /**
   * The job store after `schedule_next_refresh`: "safe now" registers
   * `db_refresh_immediate` five seconds from now, otherwise
   * `db_refresh_delayed` at the planned instant, both with a 300 s grace,
   * replacing a job under the same id; every other id keeps its job.
   */
  function AfterScheduleNextRefresh(jobs: map<string, Job>, times: seq<Instant>, now: Instant): (r: map<string, Job>)
    ensures var plan := FindNextSafeRefreshTime(times, now);
      && (plan.SafeNow? ==>
            IMMEDIATE_ID in r && r[IMMEDIATE_ID] == Job(RefreshDatabase, RunAt(now + 5_000), [], Some(300)))
      && (plan.RefreshAt? ==>
            DELAYED_ID in r && r[DELAYED_ID] == Job(RefreshDatabase, RunAt(plan.at), [], Some(300)))
      && r.Keys == jobs.Keys + {RefreshId(plan)}
      && forall k :: k in jobs && k != RefreshId(plan) ==> r[k] == jobs[k]
  {
    var plan := FindNextSafeRefreshTime(times, now);
    RegisterEffect(jobs, plan, now);
    jobs[RefreshId(plan) := RefreshJob(plan, now)]
  }

  /**
   * The job store after `hourly_refresh_check`: both refresh ids removed,
   * then the next refresh registered, so exactly one of the two refresh ids
   * remains, the one the plan asks for.
   */
  function AfterHourlyCheck(jobs: map<string, Job>, times: seq<Instant>, now: Instant): (r: map<string, Job>)
    ensures var plan := FindNextSafeRefreshTime(times, now);
      && (IMMEDIATE_ID in r <==> plan.SafeNow?)
      && (DELAYED_ID in r <==> plan.RefreshAt?)
      && r[RefreshId(plan)] == RefreshJob(plan, now)
      && forall k :: k != IMMEDIATE_ID && k != DELAYED_ID ==> (k in r <==> k in jobs) && (k in jobs ==> r[k] == jobs[k])
  {
    IdsDistinct();
    AfterScheduleNextRefresh(jobs - {IMMEDIATE_ID, DELAYED_ID}, times, now)
  }

  /** The job store after `setup_hourly_refresh`: the two check ids registered, replacing earlier ones, nothing else touched. */
  function AfterSetup(jobs: map<string, Job>, now: Instant): (r: map<string, Job>)
    ensures r.Keys == jobs.Keys + {HOURLY_ID, INITIAL_ID}
    ensures r[HOURLY_ID] == Job(RefreshCheck, HourlyAtMinuteZero, [], Some(300))
    ensures r[INITIAL_ID] == Job(RefreshCheck, RunAt(now + 30_000), [], None)
    ensures forall k :: k in jobs && k != HOURLY_ID && k != INITIAL_ID ==> r[k] == jobs[k]
  {
    IdsDistinct();
    jobs[HOURLY_ID := Job(RefreshCheck, HourlyAtMinuteZero, [], Some(REFRESH_GRACE))]
        [INITIAL_ID := Job(RefreshCheck, RunAt(now + INITIAL_DELAY_MS), [], None)]
  }

  /** Two different plan outcomes never share an id with the other jobs of this file. */
  lemma IdsDistinct()
    ensures IMMEDIATE_ID != DELAYED_ID && IMMEDIATE_ID != HOURLY_ID && IMMEDIATE_ID != INITIAL_ID
    ensures DELAYED_ID != HOURLY_ID && DELAYED_ID != INITIAL_ID && HOURLY_ID != INITIAL_ID
  {
    assert IMMEDIATE_ID[0] != HOURLY_ID[0];
  }

  /** A per-race job id `race_<id>` never collides with a refresh or check id. */
  lemma RaceJobIdsApart(id: int)
    ensures RaceJobId(id) !in {IMMEDIATE_ID, DELAYED_ID, HOURLY_ID, INITIAL_ID}
  {
    assert RaceJobId(id)[0] == 'r';
  }

  /** Registering the job of any plan, whichever way it was found: the step `AfterScheduleNextRefresh` takes. */
  lemma RegisterEffect(jobs: map<string, Job>, plan: Plan, now: Instant)
    ensures var r := jobs[RefreshId(plan) := RefreshJob(plan, now)];
      && (plan.SafeNow? ==>
            IMMEDIATE_ID in r && r[IMMEDIATE_ID] == Job(RefreshDatabase, RunAt(now + 5_000), [], Some(300)))
      && (plan.RefreshAt? ==>
            DELAYED_ID in r && r[DELAYED_ID] == Job(RefreshDatabase, RunAt(plan.at), [], Some(300)))
      && r.Keys == jobs.Keys + {RefreshId(plan)}
      && forall k :: k in jobs && k != RefreshId(plan) ==> r[k] == jobs[k]
  {
  }

  /** Hourly checks in a row with the same races and clock leave the same store as one. */
  lemma HourlyCheckRepeat(jobs: map<string, Job>, times: seq<Instant>, now: Instant)
    ensures var r := AfterHourlyCheck(jobs, times, now);
      AfterHourlyCheck(r, times, now) == r
  {
    var plan := FindNextSafeRefreshTime(times, now);
    assert AfterHourlyCheck(jobs, times, now) == (jobs - {IMMEDIATE_ID, DELAYED_ID})[RefreshId(plan) := RefreshJob(plan, now)];
    ReRegister(jobs, plan, now);
  }

  /** Clearing both refresh ids and registering the same plan again gives back the same store. */
  lemma ReRegister(jobs: map<string, Job>, plan: Plan, now: Instant)
    ensures var r := (jobs - {IMMEDIATE_ID, DELAYED_ID})[RefreshId(plan) := RefreshJob(plan, now)];
      (r - {IMMEDIATE_ID, DELAYED_ID})[RefreshId(plan) := RefreshJob(plan, now)] == r
  {
  }

  /**
   * The manual trigger removes nothing: a pending delayed refresh survives a
   * manual request that finds it safe to refresh now, so both refresh ids are
   * registered afterwards.
   */
  lemma ManualRefreshCanLeaveBoth(now: Instant, pending: Job)
    ensures var r := AfterScheduleNextRefresh(map[DELAYED_ID := pending], [], now);
      IMMEDIATE_ID in r && DELAYED_ID in r && r[DELAYED_ID] == pending
  {
    IdsDistinct();
    assert Candidates([], now) == [];
  }

  /** `schedule_next_refresh` on the store, reading the stored race starts. */
  method ScheduleNextRefresh(db: Database, sched: Scheduler, now: Instant)
    modifies sched
    ensures sched.jobs == AfterScheduleNextRefresh(old(sched.jobs), RaceTimes(db.races), now)
  {
    var plan := FindNextSafeRefreshTime(RaceTimes(db.races), now);
    match plan {
      case SafeNow =>
        sched.AddJob(IMMEDIATE_ID, Job(RefreshDatabase, RunAt(now + IMMEDIATE_DELAY_MS), [], Some(REFRESH_GRACE)));
      case RefreshAt(t) =>
        sched.AddJob(DELAYED_ID, Job(RefreshDatabase, RunAt(t), [], Some(REFRESH_GRACE)));
    }
  }

  /** `hourly_refresh_check`: remove both refresh ids, a missing one being ignored, then schedule. */
  method HourlyRefreshCheck(db: Database, sched: Scheduler, now: Instant)
    modifies sched
    ensures sched.jobs == AfterHourlyCheck(old(sched.jobs), RaceTimes(db.races), now)
  {
    var ids := [IMMEDIATE_ID, DELAYED_ID];
    ghost var removed: set<string> := {};
    for i := 0 to |ids|
      invariant forall k :: k in removed <==> k in ids[..i]
      invariant sched.jobs == old(sched.jobs) - removed
    {
      assert ids[..i + 1] == ids[..i] + [ids[i]];
      var _ := sched.RemoveJob(ids[i]);
      removed := removed + {ids[i]};
    }
    assert ids[..|ids|] == ids;
    assert removed == {IMMEDIATE_ID, DELAYED_ID};
    ScheduleNextRefresh(db, sched, now);
  }

  /** `setup_hourly_refresh`. */
  method SetupHourlyRefresh(sched: Scheduler, now: Instant)
    modifies sched
    ensures sched.jobs == AfterSetup(old(sched.jobs), now)
  {
    sched.AddJob(HOURLY_ID, Job(RefreshCheck, HourlyAtMinuteZero, [], Some(REFRESH_GRACE)));
    sched.AddJob(INITIAL_ID, Job(RefreshCheck, RunAt(now + INITIAL_DELAY_MS), [], None));
  }

  /** `trigger_manual_refresh`: schedules without removing anything first. */
  method TriggerManualRefresh(db: Database, sched: Scheduler, now: Instant)
    modifies sched
    ensures sched.jobs == AfterScheduleNextRefresh(old(sched.jobs), RaceTimes(db.races), now)
  {
    ScheduleNextRefresh(db, sched, now);
  }

  /**
   * `clear_db_and_refresh`: both tables emptied and committed, then the daily
   * scrape. A failure of the scrape is swallowed, so a run whose browser
   * cannot start leaves the tables empty and the jobs as they were.
   */
  method ClearDbAndRefresh(db: Database, sched: Scheduler, feed: Feed, clock: Clock)
    modifies db, sched
    ensures db.Valid() && db.details == []
    ensures feed.BrowserUnavailable? ==> db.races == [] && sched.jobs == old(sched.jobs) && db.logs == old(db.logs)
    ensures !feed.BrowserUnavailable? ==>
      var o := DailyScrape([], old(sched.jobs), feed, clock);
      db.races == o.races && sched.jobs == o.jobs && db.logs == old(db.logs) + [o.log]
  {
    db.details := [];
    db.races := [];
    var _ := RunDailyScrape(db, sched, feed, clock);
  }
}

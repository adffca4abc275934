/**
 * The scheduler's job store, reduced to what the core uses: a registry of
 * jobs keyed by id, with `add_job(..., replace_existing=True)`, `get_job`
 * and `remove_job`. Firing jobs is not part of this model.
 */
module JobStore {
  import opened Wrappers
  import opened Models

  /** A one-shot `"date"` trigger at an instant, or `CronTrigger(minute=0)`. */
  datatype Trigger = RunAt(instant: Instant) | HourlyAtMinuteZero

  /** The callable a job runs. */
  datatype Task =
    | ScrapeRace        // run_race_scrape
    | RefreshDatabase   // clear_db_and_refresh
    | RefreshCheck      // hourly_refresh_check

  /** A registered job; `misfireGrace` is in seconds, None meaning the scheduler's default. */
  datatype Job = Job(task: Task, trigger: Trigger, args: seq<int>, misfireGrace: Option<nat>)

  class Scheduler {
    var jobs: map<string, Job>

    constructor ()
      ensures jobs == map[]
    {
      jobs := map[];
    }

    /** `get_job(id)`: the job registered under `id`, if any. */
    function GetJob(id: string): (r: Option<Job>)
      reads this
      ensures r.Some? <==> id in jobs
      ensures r.Some? ==> r.value == jobs[id]
    {
      if id in jobs then Some(jobs[id]) else None
    }

    /** `add_job(..., id=id, replace_existing=True)`: registers `job`, replacing any job under `id`. */
    method AddJob(id: string, job: Job)
      modifies this
      ensures jobs == old(jobs)[id := job]
    {
      jobs := jobs[id := job];
    }

    /**
     * `remove_job(id)`. The library raises when no job has that id; `found`
     * is false exactly then, and the store is unchanged.
     */
    method RemoveJob(id: string) returns (found: bool)
      modifies this
      ensures found <==> id in old(jobs)
      ensures jobs == old(jobs) - {id}
    {
      found := id in jobs;
      jobs := jobs - {id};
    }
  }
}

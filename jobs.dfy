/**
 * The service's registry of running parse jobs: a job is registered when
 * its parse starts, can be cancelled while registered, and is removed when
 * it finishes. A job's cancellation token is modelled by whether it has been
 * cancelled.
 */
module Jobs {
  import opened Wrappers

  /** A job identifier, as the text of its UUID. */
  type JobId = string

  /** Registered jobs, each with whether it has been cancelled. */
  type Registry = map<JobId, bool>

  /** Registering a job gives it a fresh, uncancelled token (replacing any job of the same id). */
  function Start(m: Registry, id: JobId): (r: Registry)
    ensures r.Keys == m.Keys + {id} && !r[id]
    ensures forall j :: j in m && j != id ==> r[j] == m[j]
  {
    m[id := false]
  }

  function NotFound(id: JobId): string { "Job " + id + " not found or already completed" }

  /** Cancelling a registered job cancels its token and keeps it registered; an unknown id is an error. */
  function Cancel(m: Registry, id: JobId): (r: Result<Registry, string>)
    ensures r.Ok? <==> id in m
    ensures r.Ok? ==> r.value.Keys == m.Keys && r.value[id] && forall j :: j in m && j != id ==> r.value[j] == m[j]
    ensures r.Err? ==> r.error == NotFound(id)
  {
    if id in m then Ok(m[id := true]) else Err(NotFound(id))
  }

  /** Completing removes the job, if registered. */
  function Complete(m: Registry, id: JobId): (r: Registry)
    ensures r.Keys == m.Keys - {id} && forall j :: j in r ==> r[j] == m[j]
  {
    m - {id}
  }

  class JobManager {
    var activeJobs: Registry

    constructor()
      ensures activeJobs == map[]
    {
      activeJobs := map[];
    }

    /** `start_job`. */
    method StartJob(id: JobId)
      modifies this
      ensures activeJobs == Start(old(activeJobs), id)
    {
      activeJobs := activeJobs[id := false];
    }

    /** `cancel_job`: on an unknown id the registry is unchanged. */
    method CancelJob(id: JobId) returns (r: Result<(), string>)
      modifies this
      ensures r.Ok? <==> Cancel(old(activeJobs), id).Ok?
      ensures r.Ok? ==> activeJobs == Cancel(old(activeJobs), id).value
      ensures r.Err? ==> activeJobs == old(activeJobs) && r.error == Cancel(old(activeJobs), id).error
    {
      if id in activeJobs {
        activeJobs := activeJobs[id := true];
        r := Ok(());
      } else {
        r := Err("Job " + id + " not found or already completed");
      }
    }

    /** `complete_job`. */
    method CompleteJob(id: JobId)
      modifies this
      ensures activeJobs == Complete(old(activeJobs), id)
    {
      if id in activeJobs {
        activeJobs := activeJobs - {id};
      }
    }
  }

  /** A started job can be cancelled, and once completed it cannot. */
  lemma Lifecycle(m: Registry, id: JobId)
    ensures Cancel(Start(m, id), id).Ok?
    ensures Cancel(Complete(m, id), id).Err?
    ensures Cancel(Complete(Cancel(Start(m, id), id).value, id), id).Err?
  {
  }

  /** Starting then completing a job leaves every other job as it was. */
  lemma StartThenComplete(m: Registry, id: JobId)
    ensures Complete(Start(m, id), id) == Complete(m, id)
    ensures id !in m ==> Complete(Start(m, id), id) == m
  {
  }

  /** Cancelling twice is cancelling once. */
  lemma CancelIdempotent(m: Registry, id: JobId)
    requires id in m
    ensures Cancel(Cancel(m, id).value, id) == Cancel(m, id)
  {
    assert m[id := true][id := true] == m[id := true];
  }

  /** Operations on different jobs do not interfere. */
  lemma IndependentJobs(m: Registry, a: JobId, b: JobId)
    requires a != b
    ensures Complete(Start(m, a), b) == Start(Complete(m, b), a)
    ensures Cancel(Start(m, a), b).Ok? <==> b in m
  {
  }
}

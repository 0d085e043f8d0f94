/** The values the profiler passes around: the loaded configuration and the
    timing dataset that `Repository.run` assembles. */
module Types {

  datatype Option<T> = None | Some(value: T)

  /** One entry of the configuration's `jobs` list. */
  datatype Job = Job(name: string, command: string)

  /** The loaded YAML configuration; paths are opaque strings. */
  datatype Config = Config(workingDirectory: string, initScript: string, jobs: seq<Job>)

  /** The pair `(job['name'], dur)` that `execute` appends per job; durations are
      clock ticks. */
  datatype JobResult = JobResult(name: string, duration: int)

  /** The pair `(commit, res)` that `run` appends per commit. */
  datatype CommitResult = CommitResult(commit: string, jobs: seq<JobResult>)

  /** How `run` ends: with its dataset, or aborted by the exception `git checkout`
      raises for a revision the clone does not know. */
  datatype Outcome<T> = Done(value: T) | CheckoutFailed(commit: string)

  /** Python truthiness of the optional `commits` argument: `None` and the empty
      list are false. */
  predicate Truthy(commits: Option<seq<string>>) {
    commits.Some? && |commits.value| > 0
  }

  /** `commits or self.list_commits()`: a truthy argument is used verbatim,
      otherwise the listed revisions are. */
  function ResolveCommits(commits: Option<seq<string>>, listed: seq<string>): (r: seq<string>)
    ensures Truthy(commits) ==> r == commits.value
    ensures !Truthy(commits) ==> r == listed
    ensures |r| == 0 ==> !Truthy(commits)
  {
    if Truthy(commits) then commits.value else listed
  }

  /** A job list as `execute` returns it for `jobs`: one pair per job, in order,
      under the job's name, with a non-negative duration. */
  predicate Conforms(results: seq<JobResult>, jobs: seq<Job>) {
    |results| == |jobs| &&
    (forall i :: 0 <= i < |jobs| ==> results[i].name == jobs[i].name && results[i].duration >= 0)
  }
}

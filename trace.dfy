/** The external calls `Repository` makes, as events, and the event sequence
    each of its operations is specified to produce. */
module Trace {
  import opened Types
  import opened Paths

  /** One call into git or the shell, with the directory it runs in. */
  datatype Event =
    | Clone(cwd: string, url: string)                    // git clone <url> repo
    | Clean(cwd: string)                                 // git checkout .
    | Checkout(cwd: string, commit: string)              // git checkout <commit>
    | Init(cwd: string, script: string)                  // os.system of the init script
    | RunJob(cwd: string, name: string, command: string) // os.system of one job's command
    | RevList(cwd: string)                               // git rev-list --all

  /** The clone's directory, `os.path.join(working_directory, 'repo')`. */
  function RepoDir(config: Config): string {
    PathJoin(config.workingDirectory, "repo")
  }

  function InitPath(configDir: string, config: Config): string {
    PathJoin(configDir, config.initScript)
  }

  function JobEvent(configDir: string, config: Config, job: Job): Event {
    RunJob(RepoDir(config), job.name, PathJoin(configDir, job.command))
  }

  /** The shell invocations of `execute` for `jobs`. */
  function JobEvents(configDir: string, config: Config, jobs: seq<Job>): (r: seq<Event>)
    ensures |r| == |jobs|
  {
    if jobs == [] then []
    else JobEvents(configDir, config, jobs[..|jobs| - 1]) + [JobEvent(configDir, config, jobs[|jobs| - 1])]
  }

  /** The calls of `handle_commit(commit)` when the checkout succeeds. */
  function CommitEvents(configDir: string, config: Config, commit: string): (r: seq<Event>)
    ensures |r| == Stride(config)
  {
    var repo := RepoDir(config);
    [Clean(repo), Checkout(repo, commit), Init(repo, InitPath(configDir, config))]
      + JobEvents(configDir, config, config.jobs)
  }

  /** The calls of the commit loop of `run` over `commits`, all succeeding. */
  function RunEvents(configDir: string, config: Config, commits: seq<string>): seq<Event> {
    if commits == [] then []
    else
      RunEvents(configDir, config, commits[..|commits| - 1])
        + CommitEvents(configDir, config, commits[|commits| - 1])
  }

  /** Every event of `s` acts on the clone directory and none is a clone. */
  predicate InClone(config: Config, s: seq<Event>) {
    forall p :: 0 <= p < |s| ==> s[p].cwd == RepoDir(config) && !s[p].Clone?
  }

  /** What `run` calls before its commit loop: the clone, then `git rev-list`
      only when the argument is not truthy. */
  function Prologue(url: string, config: Config, commits: Option<seq<string>>): seq<Event> {
    [Clone(config.workingDirectory, url)] + (if Truthy(commits) then [] else [RevList(RepoDir(config))])
  }

  /** The number of events one commit contributes. */
  function Stride(config: Config): nat {
    3 + |config.jobs|
  }

  /** `execute` runs each job's command exactly once, in list order. */
  lemma {:induction false} JobEventsAt(configDir: string, config: Config, jobs: seq<Job>)
    ensures |JobEvents(configDir, config, jobs)| == |jobs|
    ensures forall i :: 0 <= i < |jobs| ==>
      JobEvents(configDir, config, jobs)[i] == JobEvent(configDir, config, jobs[i])
  {
    if jobs != [] {
      JobEventsAt(configDir, config, jobs[..|jobs| - 1]);
    }
  }

  /** Per commit: clean, then checkout of that commit, then the init script,
      then one job event per configured job, in order. */
  lemma CommitEventsAt(configDir: string, config: Config, commit: string)
    ensures |CommitEvents(configDir, config, commit)| == Stride(config)
    ensures CommitEvents(configDir, config, commit)[0] == Clean(RepoDir(config))
    ensures CommitEvents(configDir, config, commit)[1] == Checkout(RepoDir(config), commit)
    ensures CommitEvents(configDir, config, commit)[2] == Init(RepoDir(config), InitPath(configDir, config))
    ensures forall j :: 0 <= j < |config.jobs| ==>
      CommitEvents(configDir, config, commit)[3 + j] == JobEvent(configDir, config, config.jobs[j])
  {
    JobEventsAt(configDir, config, config.jobs);
  }

  lemma MulStep(k: nat, m: nat)
    ensures (k + 1) * m == k * m + m
  {
  }

  lemma MulMono(k: nat, k': nat, m: nat)
    requires k < k'
    ensures k * m + m <= k' * m
  {
    MulStep(k, m);
    assert (k + 1) * m <= k' * m;
  }

  /** Concatenation regroups freely; the commit and job loops append one
      block of events at a time to what came before. */
  lemma AppendAssoc(a: seq<Event>, b: seq<Event>, c: seq<Event>)
    ensures a + (b + c) == (a + b) + c
  {
  }

  /** Extending the job list by one job extends the events by that job's
      event. */
  lemma JobEventsSnoc(configDir: string, config: Config, jobs: seq<Job>, i: nat)
    requires i < |jobs|
    ensures JobEvents(configDir, config, jobs[..i + 1])
      == JobEvents(configDir, config, jobs[..i]) + [JobEvent(configDir, config, jobs[i])]
  {
    assert jobs[..i + 1][..i] == jobs[..i];
  }

  /** Extending the commit list by one commit extends the events by that
      commit's events. */
  lemma RunEventsSnoc(configDir: string, config: Config, commits: seq<string>, i: nat)
    requires i < |commits|
    ensures RunEvents(configDir, config, commits[..i + 1])
      == RunEvents(configDir, config, commits[..i]) + CommitEvents(configDir, config, commits[i])
  {
    assert commits[..i + 1][..i] == commits[..i];
  }

  lemma {:induction false} RunEventsLength(configDir: string, config: Config, commits: seq<string>)
    ensures |RunEvents(configDir, config, commits)| == |commits| * Stride(config)
  {
    if commits != [] {
      RunEventsLength(configDir, config, commits[..|commits| - 1]);
      MulStep(|commits| - 1, Stride(config));
    }
  }

  /** The layout of the commit loop's events: commit `k`'s events occupy the
      `k`-th block of `Stride(config)` positions, in the per-commit order (see
      `CommitEventsAt`). So every event of commit `k` precedes every event of
      commit `k + 1`, and each commit's checkout and init come before its
      jobs. */
  lemma {:induction false} RunEventAt(configDir: string, config: Config, commits: seq<string>, k: nat, j: nat)
    requires k < |commits| && j < Stride(config)
    ensures k * Stride(config) + j < |RunEvents(configDir, config, commits)|
    ensures RunEvents(configDir, config, commits)[k * Stride(config) + j]
      == CommitEvents(configDir, config, commits[k])[j]
  {
    var m := Stride(config);
    var n := |commits| - 1;
    var init := commits[..n];
    var a := RunEvents(configDir, config, init);
    var b := CommitEvents(configDir, config, commits[n]);
    assert RunEvents(configDir, config, commits) == a + b;
    RunEventsLength(configDir, config, init);
    if k < n {
      RunEventAt(configDir, config, init, k, j);
      MulMono(k, n, m);
      assert init[k] == commits[k];
    } else {
      assert (a + b)[k * m + j] == b[j];
    }
  }

  lemma CommitEventsInClone(configDir: string, config: Config, commit: string)
    ensures InClone(config, CommitEvents(configDir, config, commit))
  {
    var b := CommitEvents(configDir, config, commit);
    CommitEventsAt(configDir, config, commit);
    forall p | 0 <= p < |b| ensures b[p].cwd == RepoDir(config) && !b[p].Clone? {
      if p >= 3 {
        assert b[3 + (p - 3)] == JobEvent(configDir, config, config.jobs[p - 3]);
      }
    }
  }

  /** Every event of the commit loop acts on the one clone directory, and none
      of them is a clone. */
  lemma {:induction false} RunEventsInClone(configDir: string, config: Config, commits: seq<string>)
    ensures InClone(config, RunEvents(configDir, config, commits))
  {
    if commits != [] {
      var n := |commits| - 1;
      RunEventsInClone(configDir, config, commits[..n]);
      CommitEventsInClone(configDir, config, commits[n]);
      var a: seq<Event> := RunEvents(configDir, config, commits[..n]);
      var b: seq<Event> := CommitEvents(configDir, config, commits[n]);
      var ab: seq<Event> := a + b;
      assert RunEvents(configDir, config, commits) == ab;
      forall p | 0 <= p < |ab| ensures ab[p].cwd == RepoDir(config) && !ab[p].Clone? {
        if p < |a| { assert ab[p] == a[p]; } else { assert ab[p] == b[p - |a|]; }
      }
    }
  }

  /** In the events of a whole run, the clone comes first and happens exactly
      once, and everything after it acts on the clone directory. */
  lemma CloneOnceFirst(url: string, configDir: string, config: Config, commits: Option<seq<string>>,
                       resolved: seq<string>, tail: seq<Event>)
    requires InClone(config, tail)
    ensures var t := Prologue(url, config, commits) + RunEvents(configDir, config, resolved) + tail;
      t[0] == Clone(config.workingDirectory, url) &&
      forall p :: 0 < p < |t| ==> !t[p].Clone? && t[p].cwd == RepoDir(config)
  {
    RunEventsInClone(configDir, config, resolved);
  }
}

/** The `Repository` object: one clone in the configured working directory,
    driven across commits by `run`. Every call into git or the shell is one
    `Invoke`, which records the call in the ghost `trace` and lets the clock
    advance; the clock is the value `time.time()` reads, and the ghost
    `readings` keep every value read from it. */
module Profiler {
  import opened Types
  import opened Whitespace
  import opened Trace

  /** A clock reading, with the number of external calls made when it was
      taken. */
  datatype Reading = Reading(time: int, events: nat)

  /** The index of the first commit of `commits` that is not in `known`, or
      `|commits|` when there is none. */
  function FirstUnknown(commits: seq<string>, known: set<string>): (k: nat)
    ensures k <= |commits|
    ensures forall i :: 0 <= i < k ==> commits[i] in known
    ensures k < |commits| ==> commits[k] !in known
  {
    if commits == [] then 0
    else if commits[0] !in known then 0
    else 1 + FirstUnknown(commits[1..], known)
  }

  class Repository {
    const url: string
    const configDir: string
    const config: Config
    /** The revisions `git checkout` accepts in the clone. */
    const revisions: set<string>
    /** What `git rev-list --all` prints in the clone. */
    const revListOutput: string

    var clock: int
    ghost var trace: seq<Event>
    ghost var readings: seq<Reading>

    constructor (url: string, configDir: string, config: Config,
                 revisions: set<string>, revListOutput: string, clock: int)
      ensures this.url == url && this.configDir == configDir && this.config == config
      ensures this.revisions == revisions && this.revListOutput == revListOutput
      ensures this.clock == clock && trace == [] && readings == []
    {
      this.url := url;
      this.configDir := configDir;
      this.config := config;
      this.revisions := revisions;
      this.revListOutput := revListOutput;
      this.clock := clock;
      trace := [];
      readings := [];
    }

    /** One external process, run to completion: it is recorded, and it takes
        some non-negative amount of time. */
    method Invoke(ghost e: Event)
      modifies this`trace, this`clock
      ensures trace == old(trace) + [e]
      ensures clock >= old(clock)
    {
      trace := trace + [e];
      var later :| later >= clock;
      clock := later;
    }

    /** `time.time()`; the reading is recorded together with the number of
        calls made so far. */
    method Now() returns (t: int)
      modifies this`readings
      ensures t == clock && readings == old(readings) + [Reading(t, |trace|)]
    {
      t := clock;
      readings := readings + [Reading(t, |trace|)];
    }

    method Clone()
      modifies this`trace, this`clock
      ensures clock >= old(clock)
      ensures trace == old(trace) + [Event.Clone(config.workingDirectory, url)]
    {
      Invoke(Event.Clone(config.workingDirectory, url));
    }

    method Clean()
      modifies this`trace, this`clock
      ensures clock >= old(clock)
      ensures trace == old(trace) + [Event.Clean(RepoDir(config))]
    {
      Invoke(Event.Clean(RepoDir(config)));
    }

    /** Checks out `commitId`, then runs the init script; `ok` is false when git
        rejects the revision, in which case the init script does not run. */
    method SwitchToCommit(commitId: string) returns (ok: bool)
      modifies this`trace, this`clock
      ensures clock >= old(clock)
      ensures ok <==> commitId in revisions
      ensures ok ==> trace == old(trace) + [Checkout(RepoDir(config), commitId),
                                              Init(RepoDir(config), InitPath(configDir, config))]
      ensures !ok ==> trace == old(trace) + [Checkout(RepoDir(config), commitId)]
    {
      var wd := RepoDir(config);
      Invoke(Checkout(wd, commitId));
      ok := commitId in revisions;
      if ok {
        Invoke(Init(wd, InitPath(configDir, config)));
      }
    }

    /** One job of `execute`: a clock reading, the job's command, a second
        reading; the duration is the second reading minus the first. The first
        reading is taken before the job's event and the second after it. */
    method TimeJob(job: Job) returns (duration: int)
      modifies this`trace, this`clock, this`readings
      ensures clock >= old(clock)
      ensures trace == old(trace) + [JobEvent(configDir, config, job)]
      ensures readings == old(readings) + [Reading(old(clock), |old(trace)|), Reading(clock, |old(trace)| + 1)]
      ensures duration == clock - old(clock)
    {
      var start := Now();
      Invoke(JobEvent(configDir, config, job));
      var end := Now();
      duration := end - start;
    }

    /** Runs the configured jobs in order, timing each between two clock
        readings taken right before and right after its command. */
    method Execute() returns (stats: seq<JobResult>)
      modifies this`trace, this`clock, this`readings
      ensures clock >= old(clock)
      ensures trace == old(trace) + JobEvents(configDir, config, config.jobs)
      ensures Conforms(stats, config.jobs)
      ensures |readings| == |old(readings)| + 2 * |config.jobs|
      ensures old(readings) <= readings
      ensures Timed(readings, |old(readings)|, |old(trace)|, stats)
    {
      var jobs := config.jobs;
      ghost var trace0 := trace;
      ghost var readings0 := readings;
      ghost var base := |readings|;
      stats := [];
      var i := 0;
      while i < |jobs|
        invariant 0 <= i <= |jobs|
        invariant clock >= old(clock)
        invariant trace == trace0 + JobEvents(configDir, config, jobs[..i])
        invariant |readings| == base + 2 * i && readings0 <= readings
        invariant |stats| == i
        invariant forall k :: 0 <= k < i ==> stats[k].name == jobs[k].name && stats[k].duration >= 0
        invariant Timed(readings, base, |trace0|, stats)
      {
        ghost var before := readings;
        var d := TimeJob(jobs[i]);
        TimedSnoc(before, readings, base, |trace0|, stats, JobResult(jobs[i].name, d));
        PrefixTrans(readings0, before, readings);
        stats := stats + [JobResult(jobs[i].name, d)];
        JobEventsSnoc(configDir, config, jobs, i);
        i := i + 1;
      }
      assert jobs[..i] == jobs;
    }

    /** Cleans the tree, switches to `commitId` and runs the jobs; no result
        when the checkout is rejected, which in the source is the exception that
        ends `run`. */
    method HandleCommit(commitId: string) returns (res: Option<seq<JobResult>>)
      modifies this`trace, this`clock, this`readings
      ensures clock >= old(clock)
      ensures res.Some? <==> commitId in revisions
      ensures res.Some? ==> Conforms(res.value, config.jobs)
      ensures res.Some? ==> trace == old(trace) + CommitEvents(configDir, config, commitId)
      ensures res.None? ==>
        trace == old(trace) + [Event.Clean(RepoDir(config)), Checkout(RepoDir(config), commitId)]
      ensures old(readings) <= readings
      ensures res.None? ==> readings == old(readings)
      ensures res.Some? ==> |readings| == |old(readings)| + 2 * |config.jobs|
      ensures res.Some? ==> Timed(readings, |old(readings)|, |old(trace)| + 3, res.value)
    {
      Clean();
      var ok := SwitchToCommit(commitId);
      if !ok {
        return None;
      }
      var stats := Execute();
      res := Some(stats);
    }

    /** `git rev-list --all`, split on whitespace. */
    method ListCommits() returns (commits: seq<string>)
      modifies this`trace, this`clock
      ensures clock >= old(clock)
      ensures trace == old(trace) + [RevList(RepoDir(config))]
      ensures commits == Listed()
    {
      Invoke(RevList(RepoDir(config)));
      commits := Split(revListOutput);
    }

    /** The revisions `list_commits` returns. */
    function Listed(): seq<string> {
      Split(revListOutput)
    }

    /** The commits `run(commits)` visits. */
    function Resolved(commits: Option<seq<string>>): seq<string> {
      ResolveCommits(commits, Listed())
    }

    /** The first lines of `run`: the clone, then `commits or
        self.list_commits()`, which lists the clone's revisions only when the
        argument is not truthy. */
    method CloneAndResolve(commits: Option<seq<string>>) returns (resolved: seq<string>)
      modifies this`trace, this`clock
      ensures clock >= old(clock)
      ensures resolved == Resolved(commits)
      ensures trace == old(trace) + Prologue(url, config, commits)
    {
      Clone();
      if Truthy(commits) {
        resolved := commits.value;
      } else {
        resolved := ListCommits();
      }
    }

    /** The commit loop of `run`: handles each commit in order. It finishes
        exactly when every commit is a known revision, with one entry per
        commit in order, each holding one timing per job; it stops at the first
        unknown commit, right after that commit's failed checkout. */
    method HandleCommits(commits: seq<string>) returns (out: Outcome<seq<CommitResult>>)
      modifies this`trace, this`clock, this`readings
      ensures clock >= old(clock)
      ensures out.Done? <==> FirstUnknown(commits, revisions) == |commits|
      ensures out.Done? ==>
        |out.value| == |commits| &&
        (forall i :: 0 <= i < |out.value| ==>
          out.value[i].commit == commits[i] && Conforms(out.value[i].jobs, config.jobs))
      ensures out.Done? ==> trace == old(trace) + RunEvents(configDir, config, commits)
      ensures out.CheckoutFailed? ==>
        var k := FirstUnknown(commits, revisions);
        k < |commits| && out.commit == commits[k] &&
        trace == old(trace) + RunEvents(configDir, config, commits[..k])
          + [Event.Clean(RepoDir(config)), Checkout(RepoDir(config), commits[k])]
      ensures old(readings) <= readings
    {
      ghost var start := trace;
      ghost var readings0 := readings;
      var stats: seq<CommitResult> := [];
      var i := 0;
      while i < |commits|
        invariant 0 <= i <= |commits|
        invariant clock >= old(clock)
        invariant trace == start + RunEvents(configDir, config, commits[..i])
        invariant forall k :: 0 <= k < i ==> commits[k] in revisions
        invariant |stats| == i
        invariant forall k :: 0 <= k < i ==> stats[k].commit == commits[k]
        invariant forall k :: 0 <= k < i ==> Conforms(stats[k].jobs, config.jobs)
        invariant readings0 <= readings
      {
        var commit := commits[i];
        ghost var before := readings;
        var res := HandleCommit(commit);
        if res.None? {
          FirstUnknownAt(commits, revisions, i);
          return CheckoutFailed(commit);
        }
        RunEventsSnoc(configDir, config, commits, i);
        AppendAssoc(start, RunEvents(configDir, config, commits[..i]), CommitEvents(configDir, config, commit));
        PrefixTrans(readings0, before, readings);
        stats := stats + [CommitResult(commit, res.value)];
        i := i + 1;
      }
      assert commits[..i] == commits;
      FirstUnknownAt(commits, revisions, |commits|);
      out := Done(stats);
    }

    /** `run`: clones once, resolves the commits, and handles each in order,
        as `HandleCommits` states for the resolved list. */
    method Run(commits: Option<seq<string>>) returns (out: Outcome<seq<CommitResult>>)
      modifies this`trace, this`clock, this`readings
      ensures clock >= old(clock)
      ensures out.Done? <==> FirstUnknown(Resolved(commits), revisions) == |Resolved(commits)|
      ensures out.Done? ==>
        |out.value| == |Resolved(commits)| &&
        (forall i :: 0 <= i < |out.value| ==>
          out.value[i].commit == Resolved(commits)[i] && Conforms(out.value[i].jobs, config.jobs))
      ensures out.Done? ==>
        trace == old(trace) + Prologue(url, config, commits) + RunEvents(configDir, config, Resolved(commits))
      ensures out.CheckoutFailed? ==>
        var k := FirstUnknown(Resolved(commits), revisions);
        k < |Resolved(commits)| && out.commit == Resolved(commits)[k] &&
        trace == old(trace) + Prologue(url, config, commits)
          + RunEvents(configDir, config, Resolved(commits)[..k])
          + [Event.Clean(RepoDir(config)), Checkout(RepoDir(config), Resolved(commits)[k])]
      ensures old(readings) <= readings
    {
      var resolved := CloneAndResolve(commits);
      out := HandleCommits(resolved);
    }
  }

  /** Job `j`'s two readings, counted from position `base` of `rs`: the first
      was taken with `at + j` calls made and the second with `at + j + 1`, so
      the one call between them is call number `at + j`; `d` is the second
      time minus the first. */
  predicate Timing(rs: seq<Reading>, base: nat, at: nat, j: nat, d: int)
    requires base + 2 * j + 1 < |rs|
  {
    rs[base + 2 * j].events == at + j && rs[base + 2 * j + 1].events == at + j + 1 &&
    d == rs[base + 2 * j + 1].time - rs[base + 2 * j].time
  }

  /** The job results of one `execute`, each timed by its own two readings of
      `rs` from `base` on, the first job's command being call number `at` (see
      `TimedAt`). */
  predicate Timed(rs: seq<Reading>, base: nat, at: nat, results: seq<JobResult>) {
    base + 2 * |results| <= |rs| && TimedFrom(rs, base, at, results, 0)
  }

  /** Jobs `from..` of `results` are timed as `Timed` says. */
  predicate TimedFrom(rs: seq<Reading>, base: nat, at: nat, results: seq<JobResult>, from: nat)
    requires base + 2 * |results| <= |rs| && from <= |results|
    decreases |results| - from
  {
    from == |results| ||
    (Timing(rs, base, at, from, results[from].duration) && TimedFrom(rs, base, at, results, from + 1))
  }

  /** Job `j` of a timed job list is timed by the `j`-th pair of readings. */
  lemma TimedAt(rs: seq<Reading>, base: nat, at: nat, results: seq<JobResult>, j: nat)
    requires Timed(rs, base, at, results) && j < |results|
    ensures base + 2 * j + 1 < |rs| && Timing(rs, base, at, j, results[j].duration)
  {
    TimedFromAt(rs, base, at, results, 0, j);
  }

  lemma {:induction false} TimedFromAt(rs: seq<Reading>, base: nat, at: nat, results: seq<JobResult>,
                                       from: nat, j: nat)
    requires base + 2 * |results| <= |rs| && from <= j < |results|
    requires TimedFrom(rs, base, at, results, from)
    ensures Timing(rs, base, at, j, results[j].duration)
    decreases j - from
  {
    if from < j {
      TimedFromAt(rs, base, at, results, from + 1, j);
    }
  }

  lemma PrefixTrans(a: seq<Reading>, b: seq<Reading>, c: seq<Reading>)
    requires a <= b && b <= c
    ensures a <= c
  {
    assert c[..|a|] == b[..|a|];
  }

  /** Timings survive the appending of later readings. */
  lemma TimedPrefix(rs: seq<Reading>, rs': seq<Reading>, base: nat, at: nat, results: seq<JobResult>)
    requires Timed(rs, base, at, results)
    requires rs <= rs'
    ensures Timed(rs', base, at, results)
  {
    TimedFromPrefix(rs, rs', base, at, results, 0);
  }

  lemma {:induction false} TimedFromPrefix(rs: seq<Reading>, rs': seq<Reading>, base: nat, at: nat,
                                           results: seq<JobResult>, from: nat)
    requires base + 2 * |results| <= |rs| && from <= |results|
    requires TimedFrom(rs, base, at, results, from)
    requires rs <= rs'
    ensures TimedFrom(rs', base, at, results, from)
    decreases |results| - from
  {
    if from < |results| {
      assert rs'[base + 2 * from] == rs[base + 2 * from];
      assert rs'[base + 2 * from + 1] == rs[base + 2 * from + 1];
      TimedFromPrefix(rs, rs', base, at, results, from + 1);
    }
  }

  /** Two more readings, bracketing the next call, time one more job. */
  lemma TimedSnoc(rs: seq<Reading>, rs': seq<Reading>, base: nat, at: nat,
                  results: seq<JobResult>, r: JobResult)
    requires Timed(rs, base, at, results) && |rs| == base + 2 * |results|
    requires |rs'| == |rs| + 2 && rs <= rs'
    requires rs'[|rs|].events == at + |results| && rs'[|rs| + 1].events == at + |results| + 1
    requires r.duration == rs'[|rs| + 1].time - rs'[|rs|].time
    ensures Timed(rs', base, at, results + [r])
  {
    TimedFromSnoc(rs, rs', base, at, results, r, 0);
  }

  lemma {:induction false} TimedFromSnoc(rs: seq<Reading>, rs': seq<Reading>, base: nat, at: nat,
                                         results: seq<JobResult>, r: JobResult, from: nat)
    requires base + 2 * |results| == |rs| && from <= |results|
    requires TimedFrom(rs, base, at, results, from)
    requires |rs'| == |rs| + 2 && rs <= rs'
    requires rs'[|rs|].events == at + |results| && rs'[|rs| + 1].events == at + |results| + 1
    requires r.duration == rs'[|rs| + 1].time - rs'[|rs|].time
    ensures TimedFrom(rs', base, at, results + [r], from)
    decreases |results| - from
  {
    var results' := results + [r];
    if from < |results| {
      assert results'[from] == results[from];
      assert rs'[base + 2 * from] == rs[base + 2 * from];
      assert rs'[base + 2 * from + 1] == rs[base + 2 * from + 1];
      TimedFromSnoc(rs, rs', base, at, results, r, from + 1);
    } else {
      assert results'[from] == r;
    }
  }

  /** In the trace of an `execute` that starts after `pre`, the first reading of
      job `j` was taken right before job `j`'s own command and the second right
      after it: the call between them is that job's. */
  lemma {:induction false} TimingBracketsJob(pre: seq<Event>, configDir: string, config: Config,
                                             rs: seq<Reading>, base: nat, results: seq<JobResult>, j: nat)
    requires Timed(rs, base, |pre|, results) && |results| == |config.jobs| && j < |results|
    ensures rs[base + 2 * j + 1].events == rs[base + 2 * j].events + 1
    ensures rs[base + 2 * j].events < |pre + JobEvents(configDir, config, config.jobs)|
    ensures (pre + JobEvents(configDir, config, config.jobs))[rs[base + 2 * j].events]
      == JobEvent(configDir, config, config.jobs[j])
    ensures results[j].duration == rs[base + 2 * j + 1].time - rs[base + 2 * j].time
  {
    TimedAt(rs, base, |pre|, results, j);
    JobEventsAt(configDir, config, config.jobs);
  }

  /** `FirstUnknown` is the first position of an unknown commit: a position
      whose predecessors are all known and which is unknown itself, or the end. */
  lemma {:induction false} FirstUnknownAt(commits: seq<string>, known: set<string>, k: nat)
    requires k <= |commits|
    requires forall i :: 0 <= i < k ==> commits[i] in known
    requires k < |commits| ==> commits[k] !in known
    ensures FirstUnknown(commits, known) == k
  {
    if k > 0 {
      FirstUnknownAt(commits[1..], known, k - 1);
    }
  }
}

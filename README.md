# GitHistoryProfiler core, in Dafny

GitHistoryProfiler is a benchmarking tool. It clones a git repository once, walks
a list of commits, and does the same for each one: it resets the working tree
(`git checkout .`), checks out the commit, runs the configured init script, and
then runs each configured job under a wall-clock timer. The result of
`Repository.run` is a list of `(commit, [(job_name, duration)])`, which `plot`
flattens into `(commit[:5], job, time)` rows for a chart.

This project models that walk and proves what it promises about order,
sequencing and output shape.

- `types.dfy` (module `Types`): the configuration (`Config`, `Job`), the
  dataset (`JobResult`, `CommitResult`), Python's truthiness test of the optional
  `commits` argument, and `commits or self.list_commits()` (`ResolveCommits`).
- `paths.dfy` (module `Paths`): the two-argument POSIX `os.path.join`.
- `whitespace.dfy` (module `Whitespace`): `str.split()` with no arguments, over
  the characters Python's `str.isspace()` accepts.
- `trace.dfy` (module `Trace`): each git or shell call the class makes, as an
  `Event`. This module also defines the event sequence each operation should
  produce (`JobEvents`, `CommitEvents`, `RunEvents`, `Prologue`) and proves the
  layout of those sequences.
- `repository.dfy` (module `Profiler`): class `Repository`.
  - Every external call is one `Invoke`.
  - `Invoke` appends the call to the ghost field `trace`.
  - `Invoke` lets the integer field `clock` advance by an arbitrary
    non-negative amount.
  - `Now` reads the clock (`time.time()`) and records the value in the ghost
    field `readings`, together with the number of calls made so far. A
    reading's call count places it in the trace, so a contract can say which
    call a duration timed.
  - The methods `Clone`, `Clean`, `SwitchToCommit`, `Execute`, `HandleCommit`,
    `ListCommits` and `Run` follow the Python methods of the same names.
  - `TimeJob` is the body of the job loop of `execute`, and `HandleCommits` is
    the commit loop of `run`.
  - Each method states the exact new trace and what it returns.
  - The clone and the commit resolution at the top of `run` sit in their own
    method, `CloneAndResolve`, which `Run` calls first.
- `plot.dfy` (module `Plot`): the nested loop at the top of `plot`
  (`Flatten`). It is specified by the function `Rows`. Lemmas give the number of
  rows and the position of each row.

The environment is fixed per `Repository` object by two constants:

- `revisions`: the revisions that `git checkout` accepts in the clone.
- `revListOutput`: the text that `git rev-list --all` prints.

`git checkout` of an unknown revision makes `sh` raise, and that exception
ends `run`. This is the one failure the caller controls directly, so the model
covers it: `Run` returns `CheckoutFailed(commit)`, and the trace stops right after
that commit's failed checkout.

The code has no build-failure, job-failure or skip-and-continue policy: it
discards `os.system`'s exit status, and any git exception ends the run. The
model follows the code.

## Model

| member | source | states |
|---|---|---|
| `Types.ResolveCommits` | main.py:83 | a non-empty `commits` list is used verbatim; `None` or an empty list gives the listed revisions; an empty result can only come from a non-truthy argument |
| `Paths.PathJoinShape` | main.py:36 | an absolute `b` replaces `a`; otherwise the result starts with `a`, ends with `b`, is at most one character longer than both together, and has a `/` where `a` ends when `a` is non-empty |
| `Whitespace.SplitTokens` | main.py:77 | every token of `s.split()` is non-empty and whitespace-free |
| `Whitespace.SplitKeepsNonSpace` | main.py:77 | the tokens, concatenated, are exactly the non-whitespace characters of the input, in order |
| `Whitespace.SplitLeadingSpace` | main.py:77 | leading whitespace does not change the tokens |
| `Whitespace.SplitJoin` | main.py:77 | joining whitespace-free non-empty tokens with any non-empty whitespace separator and splitting returns exactly those tokens, in order |
| `Whitespace.SplitTerminated` | main.py:74-77 | `git rev-list`'s shape, each token followed by a whitespace run such as a newline, splits back into exactly those tokens |
| `Trace.JobEventsAt` | main.py:53-59 | the job events of a job list are one per job, in list order, each running that job's command in the clone directory |
| `Trace.CommitEventsAt` | main.py:65-68 | a commit's events are clean, then checkout of that commit, then the init script, then one event per configured job in order |
| `Trace.RunEventsLength` | main.py:85-86 | the commit loop produces (number of commits) times (3 + number of jobs) events |
| `Trace.RunEventAt` | main.py:85-86 | event `j` of commit `k`'s block sits at position `k * (3 + n) + j` for `n` configured jobs, so every event of commit `k` comes before every event of commit `k + 1` |
| `Trace.RunEventsInClone` | main.py:36-37 | every event of the commit loop acts on the one clone directory `working_directory/repo`, and none is a clone |
| `Trace.CloneOnceFirst` | main.py:80-86 | in a whole run's events, the clone is first and occurs exactly once, and every later event acts on the clone directory |
| `Profiler.FirstUnknown` | main.py:43 | the index of the first commit that `git checkout` rejects: every earlier commit is known and that one is not, or the end of the list |
| `Profiler.FirstUnknownAt` | main.py:43 | any index with all earlier commits known and itself unknown (or the end) is the value `FirstUnknown` returns |
| `Profiler.Repository.constructor` | main.py:25-29 | the object holds the URL, the configuration and its directory; the trace and the readings start empty |
| `Profiler.Repository.Now` | main.py:57 | returns the current clock and appends that reading to the recorded readings, tagged with the number of calls made so far |
| `Profiler.Repository.Clone` | main.py:32-33 | one clone event, run in the working directory |
| `Profiler.Repository.Clean` | main.py:35-37 | one `git checkout .` event in the clone directory |
| `Profiler.Repository.SwitchToCommit` | main.py:39-47 | checkout of the commit; success exactly when git knows the revision; the init script runs only after a successful checkout |
| `Profiler.Repository.TimeJob` | main.py:57-60 | the trace grows by exactly that job's event; two readings are appended: the clock before the call, tagged with the call count before it, then the clock after the call, tagged with that count plus one; the duration is the second minus the first, so it is never negative |
| `Profiler.Repository.Execute` | main.py:49-63 | one result per configured job, in order and under the job's name; the trace grows by exactly the job events; the earlier readings are kept and two readings per job are appended; job `i`'s duration is the second of the `i`-th pair minus the first, and the pair's call counts put job `i`'s own command, the `i`-th call of this `execute`, between them (`Timed`); durations are never negative |
| `Profiler.Repository.HandleCommit` | main.py:65-68 | the result is present exactly when the commit is known; when present, the trace grows by that commit's events and the job list conforms to the configuration; when absent, the trace stops after the failed checkout; the earlier readings are kept; when absent no reading is added; when present two readings per job are added, and they time the jobs whose commands follow the clean, checkout and init calls (`Timed`) |
| `Profiler.TimedAt` | main.py:57-60 | in a timed job list, job `j`'s duration is the difference of the `j`-th pair of readings, and that pair was taken with `at + j` and `at + j + 1` calls made |
| `Profiler.TimingBracketsJob` | main.py:53-60 | for `execute`'s trace, the call between job `j`'s two readings is exactly job `j`'s command event, and the duration is the second reading's time minus the first |
| `Profiler.TimedPrefix` | main.py:57-62 | timings stay true when later readings are appended, so a job list's timings hold for the rest of the run |
| `Profiler.Repository.ListCommits` | main.py:70-77 | one `git rev-list` event; the result is `Split` of git's output |
| `Profiler.Repository.CloneAndResolve` | main.py:80-83 | clones first; lists revisions only when the argument is not truthy; returns the resolved commit list |
| `Profiler.Repository.HandleCommits` | main.py:85-88 | the commit loop finishes exactly when every commit is known. Then: one entry per commit, in order, each with that commit's id and one non-negative timing per configured job in order, and the trace grows by each commit's events in order. Otherwise: the result names the first unknown commit, and the trace ends after its failed checkout. The earlier readings are kept in both cases |
| `Profiler.Repository.Run` | main.py:79-88 | finishes exactly when every resolved commit is known. Then: one entry per resolved commit, in order, each with that commit's id and one non-negative timing per configured job in order, and the trace is the clone, the optional listing, then each commit's events in order. Otherwise: the result names the first unknown commit, and the trace ends after its failed checkout. The earlier readings are kept in both cases |
| `Plot.Label` | main.py:95 | `commit[:5]`: the first `min(5, len(commit))` characters of the commit |
| `Plot.Flatten` | main.py:92-95 | the nested loop produces exactly `Rows(data)` |
| `Plot.JobRowsAt` | main.py:94-95 | one row per job of a commit, in order, each with the commit's label and the job's name and duration |
| `Plot.RowsLength` | main.py:92-95 | the number of rows is the total number of job results in the dataset |
| `Plot.RowsAt` | main.py:93-95 | job `j` of commit `k` becomes row `TotalJobs(data[..k]) + j`, with the commit's label and the job's name and duration |
| `Plot.CommitMajor` | main.py:93-95 | every row of an earlier commit precedes every row of a later commit |
| `Plot.RowsOfRun` | main.py:92-95 | the dataset of a finished run flattens into `commits * jobs` rows |

## Left out

- The git and shell calls themselves (`git clone`, `git checkout`, `git rev-list`, `os.system`). Each one is only an event in the trace. The shell command string `cd "<wd>" && <cmd> > /dev/null` is represented by its working directory and command path.
- Exit statuses. The source discards `os.system`'s return value, so the model has no failed build or failed job.
- Failures of `git clone`, `git checkout .` and `git rev-list`. They depend on the network and the disk. In the source `sh` would raise and end `run`; the model lets these calls succeed.
- Profiler.Repository.Now: `time.time()` returns float seconds from a wall clock that can be set back. The model uses integer ticks from a clock that never goes backwards, and durations are non-negative only because of that.
- Profiler.Repository.HandleCommits: states that each duration is non-negative and that earlier readings are kept, but not which readings time which commit. `HandleCommit` states that for each call, and `TimedPrefix` says that it stays true as later readings are added. For the whole loop, the statement needs the block offsets `k * 2 * jobs` and `k * (3 + jobs)`, which make the loop's proof too costly.
- Profiler.Repository.Run: the same as `HandleCommits`. It states that durations are non-negative and earlier readings are kept, but not which readings time which commit.
- Profiler.Repository.SwitchToCommit: `git checkout` is modelled as succeeding exactly on the fixed set `revisions`. The model assumes acceptance does not depend on the working-tree state and that a revision name resolves the same way at every commit. A relative ref such as `HEAD~1` would resolve differently after each checkout. In practice `run` visits ids from `git rev-list`, which are absolute.
- `load_config` (YAML parsing), `os.makedirs` of the working directory, and `os.path.dirname` of the config path in `__init__`. The configuration and its directory are given values.
- Job-name uniqueness. The source does not enforce it, and the model does not either.
- The tqdm progress bars, the pandas DataFrame, the seaborn and matplotlib plotting and saving in `plot` after the transform, and the click command line (`main`).
- `str.split()` is modelled on the code points `str.isspace()` accepts for `str`. Bytes and other encodings are not modelled.

/** The data transform at the top of `Repository.plot`: the nested dataset of
    `run` flattened into `(commit[:5], name, duration)` rows. */
module Plot {
  import opened Types

  /** One row of the table handed to the plotting library, with its columns
      `commit`, `job` and `time`. */
  datatype Row = Row(commit: string, job: string, time: int)

  function Min(a: int, b: int): int {
    if a <= b then a else b
  }

  /** `commit[:5]`. */
  function Label(commit: string): (r: string)
    ensures |r| == Min(5, |commit|)
    ensures r == commit[..|r|]
  {
    if |commit| <= 5 then commit else commit[..5]
  }

  /** The rows of one commit's job list. */
  function JobRows(commit: string, jobs: seq<JobResult>): seq<Row> {
    if jobs == [] then []
    else
      JobRows(commit, jobs[..|jobs| - 1])
        + [Row(Label(commit), jobs[|jobs| - 1].name, jobs[|jobs| - 1].duration)]
  }

  /** The rows of a dataset, commit by commit. */
  function Rows(data: seq<CommitResult>): seq<Row> {
    if data == [] then []
    else Rows(data[..|data| - 1]) + JobRows(data[|data| - 1].commit, data[|data| - 1].jobs)
  }

  /** The number of job results in a dataset. */
  function TotalJobs(data: seq<CommitResult>): nat {
    if data == [] then 0 else TotalJobs(data[..|data| - 1]) + |data[|data| - 1].jobs|
  }

  /** The loop of `plot`: for each commit, for each of its jobs, one row. */
  method Flatten(data: seq<CommitResult>) returns (rows: seq<Row>)
    ensures rows == Rows(data)
  {
    rows := [];
    var i := 0;
    while i < |data|
      invariant 0 <= i <= |data|
      invariant rows == Rows(data[..i])
    {
      var commit := data[i].commit;
      var jobs := data[i].jobs;
      var j := 0;
      while j < |jobs|
        invariant 0 <= j <= |jobs|
        invariant rows == Rows(data[..i]) + JobRows(commit, jobs[..j])
      {
        rows := rows + [Row(Label(commit), jobs[j].name, jobs[j].duration)];
        assert jobs[..j + 1][..j] == jobs[..j];
        j := j + 1;
      }
      assert jobs[..j] == jobs;
      assert data[..i + 1][..i] == data[..i];
      i := i + 1;
    }
    assert data[..i] == data;
  }

  /** Row `j` of a commit is its `j`-th job, under the commit's label. */
  lemma {:induction false} JobRowsAt(commit: string, jobs: seq<JobResult>)
    ensures |JobRows(commit, jobs)| == |jobs|
    ensures forall j :: 0 <= j < |jobs| ==>
      JobRows(commit, jobs)[j] == Row(Label(commit), jobs[j].name, jobs[j].duration)
  {
    if jobs != [] {
      JobRowsAt(commit, jobs[..|jobs| - 1]);
    }
  }

  /** There is one row per job result. */
  lemma {:induction false} RowsLength(data: seq<CommitResult>)
    ensures |Rows(data)| == TotalJobs(data)
  {
    if data != [] {
      RowsLength(data[..|data| - 1]);
      JobRowsAt(data[|data| - 1].commit, data[|data| - 1].jobs);
    }
  }

  lemma TotalJobsPrefix(data: seq<CommitResult>, k: nat)
    requires k < |data|
    ensures TotalJobs(data[..k + 1]) == TotalJobs(data[..k]) + |data[k].jobs|
  {
    assert data[..k + 1][..k] == data[..k];
  }

  /** Commit-major order: the rows of commit `k` start right after all rows of
      the commits before it, and row `j` there is the `j`-th job of commit `k`,
      labelled with the commit's first five characters. */
  lemma {:induction false} RowsAt(data: seq<CommitResult>, k: nat, j: nat)
    requires k < |data| && j < |data[k].jobs|
    ensures TotalJobs(data[..k]) + j < |Rows(data)|
    ensures Rows(data)[TotalJobs(data[..k]) + j]
      == Row(Label(data[k].commit), data[k].jobs[j].name, data[k].jobs[j].duration)
  {
    var n := |data| - 1;
    var init := data[..n];
    var a := Rows(init);
    var b := JobRows(data[n].commit, data[n].jobs);
    assert Rows(data) == a + b;
    RowsLength(init);
    JobRowsAt(data[n].commit, data[n].jobs);
    if k < n {
      assert init[..k] == data[..k];
      assert init[k] == data[k];
      RowsAt(init, k, j);
      TotalJobsPrefix(init, k);
      TotalJobsMono(init, k + 1);
    } else {
      assert init == data[..k];
      assert (a + b)[|a| + j] == b[j];
    }
  }

  /** The rows of a prefix of the dataset never outnumber those of the whole. */
  lemma {:induction false} TotalJobsMono(data: seq<CommitResult>, k: nat)
    requires k <= |data|
    ensures TotalJobs(data[..k]) <= TotalJobs(data)
    decreases |data|
  {
    if k < |data| {
      var n := |data| - 1;
      assert data[..n][..k] == data[..k];
      TotalJobsMono(data[..n], k);
    } else {
      assert data[..k] == data;
    }
  }

  /** Every row of an earlier commit comes before every row of a later one. */
  lemma CommitMajor(data: seq<CommitResult>, k: nat, k': nat, j: nat)
    requires k < k' < |data| && j < |data[k].jobs|
    ensures TotalJobs(data[..k]) + j < TotalJobs(data[..k'])
  {
    TotalJobsPrefix(data, k);
    assert data[..k'][..k + 1] == data[..k + 1];
    TotalJobsMono(data[..k'], k + 1);
  }

  /** The dataset of a finished run, where every commit holds one result per
      configured job, flattens into `|data| * |jobs|` rows. */
  lemma {:induction false} RowsOfRun(data: seq<CommitResult>, jobs: seq<Job>)
    requires forall i :: 0 <= i < |data| ==> Conforms(data[i].jobs, jobs)
    ensures |Rows(data)| == |data| * |jobs|
  {
    RowsLength(data);
    TotalOfRun(data, jobs);
  }

  lemma {:induction false} TotalOfRun(data: seq<CommitResult>, jobs: seq<Job>)
    requires forall i :: 0 <= i < |data| ==> Conforms(data[i].jobs, jobs)
    ensures TotalJobs(data) == |data| * |jobs|
  {
    if data != [] {
      var n := |data| - 1;
      TotalOfRun(data[..n], jobs);
      assert (n + 1) * |jobs| == n * |jobs| + |jobs|;
    }
  }
}

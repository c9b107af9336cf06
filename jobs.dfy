/**
 * The job and job-file extraction of the localization platform's Jobs API
 * (backend/main.py:401-407 and 535-561), and the `smartling_job_files`
 * table it fills (backend/main.py:52-57). API replies are given as values:
 * the list of jobs, and for each position in that list the reply of the
 * files request made for the job there (two jobs with the same id make two
 * requests, which may answer differently).
 */
module Jobs {
  import opened Common

  /** The fields of one job item the handlers read; absent or null fields are `None`. */
  datatype Job = Job(
    translationJobUid: Option<string>,
    jobId: Option<string>,
    id: Option<string>,
    jobName: Option<string>,
    name: Option<string>,
    jobStatus: Option<string>)

  /** The fields of one file item of a job. */
  datatype FileEntry = FileEntry(uri: Option<string>, fileUri: Option<string>)

  /** One entry of the job list the jobs endpoint returns. */
  datatype JobSummary = JobSummary(jobId: string, jobName: string)

  /** The reply of one job's files request: its items, or the error `raise_for_status` raises. */
  datatype FilesReply = Files(entries: seq<FileEntry>) | FilesFailed(message: string)

  /** What the job-file extraction yields: the (job id, file uri) pairs, or the error that escaped it. */
  datatype Collected = Pairs(pairs: seq<(string, string)>) | CollectFailed(message: string)

  const CANCELLED := "CANCELLED"

  /** `translationJobUid or jobId or id`. */
  function JobIdOf(j: Job): (r: Option<string>)
    ensures Truthy(r) <==> Truthy(j.translationJobUid) || Truthy(j.jobId) || Truthy(j.id)
    ensures Truthy(j.translationJobUid) ==> r == j.translationJobUid
    ensures !Truthy(j.translationJobUid) && Truthy(j.jobId) ==> r == j.jobId
    ensures !Truthy(j.translationJobUid) && !Truthy(j.jobId) ==> r == j.id
  {
    if Truthy(j.translationJobUid) then j.translationJobUid
    else if Truthy(j.jobId) then j.jobId
    else j.id
  }

  /** `str(x)` of an optional string: Python prints a missing value as "None". */
  function Str(x: Option<string>): string
  {
    if x.Some? then x.value else "None"
  }

  /** `jobName or name or str(job_id)`. */
  function JobNameOf(j: Job): (name: string)
    ensures Truthy(j.jobName) ==> name == j.jobName.value
    ensures !Truthy(j.jobName) && Truthy(j.name) ==> name == j.name.value
    ensures !Truthy(j.jobName) && !Truthy(j.name) ==> name == Str(JobIdOf(j))
  {
    if Truthy(j.jobName) then j.jobName.value
    else if Truthy(j.name) then j.name.value
    else Str(JobIdOf(j))
  }

  /** The jobs endpoint keeps the jobs with a truthy id, in order, with their name. */
  function Summaries(jobs: seq<Job>): (r: seq<JobSummary>)
    ensures |r| <= |jobs|
  {
    if jobs == [] then []
    else
      var last := jobs[|jobs| - 1];
      Summaries(jobs[..|jobs| - 1])
        + (if Truthy(JobIdOf(last)) then [JobSummary(JobIdOf(last).value, JobNameOf(last))] else [])
  }

  /** The job list of one batch of jobs followed by another is the two lists one after the other. */
  lemma {:induction false} SummariesAppend(a: seq<Job>, b: seq<Job>)
    ensures Summaries(a + b) == Summaries(a) + Summaries(b)
    decreases |b|
  {
    if b == [] {
      assert a + b == a;
    } else {
      var front := b[..|b| - 1];
      assert (a + b)[..|a + b| - 1] == a + front;
      SummariesAppend(a, front);
    }
  }

  /**
   * An entry is in the job list exactly when some job with a truthy id
   * produced it; every listed id is non-empty.
   */
  lemma {:induction false} SummariesMembers(jobs: seq<Job>, s: JobSummary)
    ensures s in Summaries(jobs) <==>
              exists k :: 0 <= k < |jobs| && Truthy(JobIdOf(jobs[k]))
                          && s == JobSummary(JobIdOf(jobs[k]).value, JobNameOf(jobs[k]))
    ensures s in Summaries(jobs) ==> s.jobId != ""
  {
    if jobs != [] {
      var front := jobs[..|jobs| - 1];
      SummariesMembers(front, s);
      if s in Summaries(jobs) && s !in Summaries(front) {
        assert Truthy(JobIdOf(jobs[|jobs| - 1]));
      }
      if exists k :: 0 <= k < |jobs| && Truthy(JobIdOf(jobs[k])) && s == JobSummary(JobIdOf(jobs[k]).value, JobNameOf(jobs[k])) {
        var k :| 0 <= k < |jobs| && Truthy(JobIdOf(jobs[k])) && s == JobSummary(JobIdOf(jobs[k]).value, JobNameOf(jobs[k]));
        if k < |jobs| - 1 {
          assert front[k] == jobs[k];
        }
      }
    }
  }

  /** The jobs endpoint's loop over the returned items. */
  method ListJobs(jobs: seq<Job>) returns (result: seq<JobSummary>)
    ensures result == Summaries(jobs)
  {
    result := [];
    for i := 0 to |jobs|
      invariant result == Summaries(jobs[..i])
    {
      assert jobs[..i + 1][..i] == jobs[..i];
      var j := jobs[i];
      var jobId := JobIdOf(j);
      var jobName := if Truthy(j.jobName) then j.jobName.value else if Truthy(j.name) then j.name.value else Str(jobId);
      if Truthy(jobId) {
        result := result + [JobSummary(jobId.value, jobName)];
      }
    }
    assert jobs[..|jobs|] == jobs;
  }

  /** A job the file extraction looks at: it has a truthy id and is not cancelled. */
  predicate Kept(j: Job)
  {
    Truthy(JobIdOf(j)) && j.jobStatus != Some(CANCELLED)
  }

  /** `uri or fileUri`. */
  function FileUriOf(f: FileEntry): (r: Option<string>)
    ensures Truthy(r) <==> Truthy(f.uri) || Truthy(f.fileUri)
    ensures Truthy(f.uri) ==> r == f.uri
    ensures !Truthy(f.uri) ==> r == f.fileUri
  {
    if Truthy(f.uri) then f.uri else f.fileUri
  }

  /** The pairs one job contributes: its id with each file item's truthy uri, in order. */
  function JobPairs(jobId: string, entries: seq<FileEntry>): (r: seq<(string, string)>)
    ensures |r| <= |entries|
    ensures forall k :: 0 <= k < |r| ==> r[k].0 == jobId && r[k].1 != ""
  {
    if entries == [] then []
    else
      var uri := FileUriOf(entries[|entries| - 1]);
      JobPairs(jobId, entries[..|entries| - 1]) + (if Truthy(uri) then [(jobId, uri.value)] else [])
  }

  /**
   * `fetch_job_files`' collection step: the pairs of every kept job, in job
   * order, or the first failed files request, which ends the extraction.
   */
  function Collect(jobs: seq<Job>, files: nat -> FilesReply): (r: Collected)
  {
    if jobs == [] then Pairs([])
    else
      var last := jobs[|jobs| - 1];
      match Collect(jobs[..|jobs| - 1], files)
      case CollectFailed(m) => CollectFailed(m)
      case Pairs(ps) =>
        if !Kept(last) then Pairs(ps)
        else match files(|jobs| - 1)
             case FilesFailed(m) => CollectFailed(m)
             case Files(entries) => Pairs(ps + JobPairs(JobIdOf(last).value, entries))
  }

  /**
   * Every collected pair names a kept job and a non-empty uri: cancelled
   * jobs and jobs without an id contribute nothing.
   */
  lemma {:induction false} CollectedPairsFromKeptJobs(jobs: seq<Job>, files: nat -> FilesReply)
    ensures var r := Collect(jobs, files);
            r.Pairs? ==> forall k :: 0 <= k < |r.pairs| ==>
              r.pairs[k].1 != "" && exists i :: 0 <= i < |jobs| && Kept(jobs[i]) && r.pairs[k].0 == JobIdOf(jobs[i]).value
  {
    if jobs != [] {
      var front := jobs[..|jobs| - 1];
      var last := jobs[|jobs| - 1];
      CollectedPairsFromKeptJobs(front, files);
      var r := Collect(jobs, files);
      if r.Pairs? {
        var ps := Collect(front, files).pairs;
        forall k | 0 <= k < |r.pairs|
          ensures r.pairs[k].1 != "" && exists i :: 0 <= i < |jobs| && Kept(jobs[i]) && r.pairs[k].0 == JobIdOf(jobs[i]).value
        {
          if k < |ps| {
            var i :| 0 <= i < |front| && Kept(front[i]) && ps[k].0 == JobIdOf(front[i]).value;
            assert jobs[i] == front[i];
          } else {
            assert Kept(last);
          }
        }
      }
    }
  }

  /** The pairs of a list of file items followed by another are the two lists of pairs, in that order. */
  lemma {:induction false} JobPairsAppend(jobId: string, a: seq<FileEntry>, b: seq<FileEntry>)
    ensures JobPairs(jobId, a + b) == JobPairs(jobId, a) + JobPairs(jobId, b)
    decreases |b|
  {
    if b == [] {
      assert a + b == a;
    } else {
      assert (a + b)[..|a + b| - 1] == a + b[..|b| - 1];
      JobPairsAppend(jobId, a, b[..|b| - 1]);
    }
  }

  /**
   * A pair is contributed exactly when some file item has a truthy
   * `uri or fileUri`: every such item yields (job id, uri), and nothing else does.
   */
  lemma {:induction false} JobPairsMembers(jobId: string, entries: seq<FileEntry>, p: (string, string))
    ensures p in JobPairs(jobId, entries) <==>
              exists k :: 0 <= k < |entries| && Truthy(FileUriOf(entries[k])) && p == (jobId, FileUriOf(entries[k]).value)
    decreases |entries|
  {
    if entries != [] {
      var front := entries[..|entries| - 1];
      JobPairsMembers(jobId, front, p);
      if exists k :: 0 <= k < |entries| && Truthy(FileUriOf(entries[k])) && p == (jobId, FileUriOf(entries[k]).value) {
        var k :| 0 <= k < |entries| && Truthy(FileUriOf(entries[k])) && p == (jobId, FileUriOf(entries[k]).value);
        if k < |entries| - 1 {
          assert front[k] == entries[k];
        }
      }
      if p in JobPairs(jobId, front) {
        var k :| 0 <= k < |front| && Truthy(FileUriOf(front[k])) && p == (jobId, FileUriOf(front[k]).value);
        assert entries[k] == front[k];
      }
    }
  }

  /** What the job at position `i` contributes when its files request answered. */
  function Contribution(jobs: seq<Job>, files: nat -> FilesReply, i: nat): seq<(string, string)>
    requires i < |jobs|
  {
    if Kept(jobs[i]) && files(i).Files? then JobPairs(JobIdOf(jobs[i]).value, files(i).entries) else []
  }

  /** The contributions of the jobs from position `i` on, concatenated front to back. */
  function PairsFrom(jobs: seq<Job>, files: nat -> FilesReply, i: nat): seq<(string, string)>
    requires i <= |jobs|
    decreases |jobs| - i
  {
    if i == |jobs| then [] else Contribution(jobs, files, i) + PairsFrom(jobs, files, i + 1)
  }

  /** Adding a job at the end adds its contribution at the end. */
  lemma {:induction false} PairsFromSnoc(jobs: seq<Job>, files: nat -> FilesReply, i: nat)
    requires jobs != [] && i < |jobs|
    ensures PairsFrom(jobs, files, i)
            == PairsFrom(jobs[..|jobs| - 1], files, i) + Contribution(jobs, files, |jobs| - 1)
    decreases |jobs| - i
  {
    var front := jobs[..|jobs| - 1];
    if i < |jobs| - 1 {
      assert front[i] == jobs[i];
      assert Contribution(front, files, i) == Contribution(jobs, files, i);
      PairsFromSnoc(jobs, files, i + 1);
    }
  }

  /**
   * The extraction succeeds exactly when every kept job's files request
   * answers, and then its pairs are the contributions of the jobs,
   * concatenated in job order.
   */
  lemma {:induction false} CollectIsConcatenation(jobs: seq<Job>, files: nat -> FilesReply)
    ensures Collect(jobs, files).Pairs? <==> forall i :: 0 <= i < |jobs| && Kept(jobs[i]) ==> files(i).Files?
    ensures Collect(jobs, files).Pairs? ==> Collect(jobs, files).pairs == PairsFrom(jobs, files, 0)
  {
    if jobs != [] {
      var front := jobs[..|jobs| - 1];
      CollectIsConcatenation(front, files);
      PairsFromSnoc(jobs, files, 0);
      if !Collect(front, files).Pairs? {
        var i :| 0 <= i < |front| && Kept(front[i]) && !files(i).Files?;
        assert jobs[i] == front[i];
      } else {
        forall i | 0 <= i < |front| && Kept(front[i])
          ensures Kept(jobs[i]) && i < |jobs|
        {
          assert jobs[i] == front[i];
        }
      }
    }
  }

  /** A failed files request of a kept job makes the whole extraction fail. */
  lemma {:induction false} CollectFailsOnKeptFailure(jobs: seq<Job>, files: nat -> FilesReply, i: nat)
    requires i < |jobs| && Kept(jobs[i]) && files(i).FilesFailed?
    ensures Collect(jobs, files).CollectFailed?
    decreases |jobs|
  {
    var front := jobs[..|jobs| - 1];
    if i < |jobs| - 1 {
      assert front[i] == jobs[i];
      CollectFailsOnKeptFailure(front, files, i);
    }
  }

  /** The loop of `fetch_job_files` over the jobs and, inside, over each job's files. */
  method CollectJobFiles(jobs: seq<Job>, files: nat -> FilesReply) returns (result: Collected)
    ensures result == Collect(jobs, files)
  {
    var pairs: seq<(string, string)> := [];
    for i := 0 to |jobs|
      invariant Collect(jobs[..i], files) == Pairs(pairs)
    {
      assert jobs[..i + 1][..i] == jobs[..i];
      var job := jobs[i];
      var jobId := JobIdOf(job);
      if !Truthy(jobId) || job.jobStatus == Some(CANCELLED) {
        continue;
      }
      var reply := files(i);
      if reply.FilesFailed? {
        assert jobs[..|jobs|] == jobs;
        CollectFailsOnKeptFailure(jobs, files, i);
        UnchangedAfterFailure(jobs, files, i + 1);
        return CollectFailed(reply.message);
      }
      var entries := reply.entries;
      ghost var before := pairs;
      for k := 0 to |entries|
        invariant pairs == before + JobPairs(jobId.value, entries[..k])
      {
        assert entries[..k + 1][..k] == entries[..k];
        var uri := FileUriOf(entries[k]);
        if Truthy(uri) {
          pairs := pairs + [(jobId.value, uri.value)];
        }
      }
      assert entries[..|entries|] == entries;
    }
    assert jobs[..|jobs|] == jobs;
    return Pairs(pairs);
  }

  /** Once the extraction of a prefix failed, it fails with the same message on the whole list. */
  lemma {:induction false} UnchangedAfterFailure(jobs: seq<Job>, files: nat -> FilesReply, k: nat)
    requires k <= |jobs| && Collect(jobs[..k], files).CollectFailed?
    ensures Collect(jobs, files) == Collect(jobs[..k], files)
    decreases |jobs| - k
  {
    if k < |jobs| {
      assert jobs[..k + 1][..k] == jobs[..k];
      UnchangedAfterFailure(jobs, files, k + 1);
    } else {
      assert jobs[..k] == jobs;
    }
  }

  /** One row of `smartling_job_files`; the table has no unique constraint besides its id. */
  datatype JobFileRow = JobFileRow(jobId: string, fileUri: string, projectId: string)

  /** The rows the extraction inserts for a project. */
  function RowsFor(pairs: seq<(string, string)>, projectId: string): (r: seq<JobFileRow>)
    ensures |r| == |pairs|
    ensures forall k :: 0 <= k < |r| ==> r[k] == JobFileRow(pairs[k].0, pairs[k].1, projectId)
  {
    seq(|pairs|, k requires 0 <= k < |pairs| => JobFileRow(pairs[k].0, pairs[k].1, projectId))
  }

  /**
   * `SELECT job_id, file_uri FROM smartling_job_files WHERE project_id=?`.
   * The query has no `ORDER BY`; the model fixes the order SQLite's full
   * scan gives, rowid order, which is insertion order here.
   */
  function ForProject(rows: seq<JobFileRow>, projectId: string): (r: seq<(string, string)>)
    ensures |r| <= |rows|
  {
    if rows == [] then []
    else
      var last := rows[|rows| - 1];
      ForProject(rows[..|rows| - 1], projectId)
        + (if last.projectId == projectId then [(last.jobId, last.fileUri)] else [])
  }

  lemma {:induction false} ForProjectAppend(a: seq<JobFileRow>, b: seq<JobFileRow>, projectId: string)
    ensures ForProject(a + b, projectId) == ForProject(a, projectId) + ForProject(b, projectId)
    decreases |b|
  {
    if b == [] {
      assert a + b == a;
    } else {
      assert (a + b)[..|a + b| - 1] == a + b[..|b| - 1];
      ForProjectAppend(a, b[..|b| - 1], projectId);
    }
  }

  /** Reading back the rows inserted for a project gives the inserted pairs. */
  lemma {:induction false} ForProjectRowsFor(pairs: seq<(string, string)>, projectId: string)
    ensures ForProject(RowsFor(pairs, projectId), projectId) == pairs
    decreases |pairs|
  {
    if pairs != [] {
      var front := pairs[..|pairs| - 1];
      assert RowsFor(pairs, projectId)[..|pairs| - 1] == RowsFor(front, projectId);
      ForProjectRowsFor(front, projectId);
    }
  }

  /** The `smartling_job_files` table, rows in id order. */
  class JobFilesTable {
    var rows: seq<JobFileRow>

    constructor ()
      ensures rows == []
    {
      rows := [];
    }

    /**
     * The write of `fetch_job_files`: collect the pairs and insert one row
     * per pair. `INSERT OR IGNORE` ignores nothing here, because only the
     * id is unique; when a files request fails nothing is written.
     */
    method FetchAndSave(projectId: string, jobs: seq<Job>, files: nat -> FilesReply) returns (result: Collected)
      modifies this
      ensures result == Collect(jobs, files)
      ensures result.Pairs? ==> rows == old(rows) + RowsFor(result.pairs, projectId)
      ensures result.CollectFailed? ==> rows == old(rows)
    {
      result := CollectJobFiles(jobs, files);
      if result.Pairs? {
        var pairs := result.pairs;
        ghost var before := rows;
        for k := 0 to |pairs|
          invariant rows == before + RowsFor(pairs[..k], projectId)
        {
          assert RowsFor(pairs[..k + 1], projectId) == RowsFor(pairs[..k], projectId) + [JobFileRow(pairs[k].0, pairs[k].1, projectId)];
          rows := rows + [JobFileRow(pairs[k].0, pairs[k].1, projectId)];
        }
        assert pairs[..|pairs|] == pairs;
      }
    }

    /** `get_job_files`: the stored pairs of one project. */
    method GetJobFiles(projectId: string) returns (r: seq<(string, string)>)
      ensures r == ForProject(rows, projectId)
    {
      r := [];
      for k := 0 to |rows|
        invariant r == ForProject(rows[..k], projectId)
      {
        assert rows[..k + 1][..k] == rows[..k];
        if rows[k].projectId == projectId {
          r := r + [(rows[k].jobId, rows[k].fileUri)];
        }
      }
      assert rows[..|rows|] == rows;
    }
  }

  /**
   * Saving the same extraction twice stores every pair twice: the project's
   * listing grows by the pairs on each save, duplicates included.
   */
  lemma SavingTwiceDuplicates(rows: seq<JobFileRow>, pairs: seq<(string, string)>, projectId: string)
    ensures ForProject(rows + RowsFor(pairs, projectId) + RowsFor(pairs, projectId), projectId)
            == ForProject(rows, projectId) + pairs + pairs
  {
    ForProjectAppend(rows + RowsFor(pairs, projectId), RowsFor(pairs, projectId), projectId);
    ForProjectAppend(rows, RowsFor(pairs, projectId), projectId);
    ForProjectRowsFor(pairs, projectId);
  }
}

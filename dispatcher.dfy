/**
 * Dispatch of one download by file format, as a trace of the external commands
 * it runs, and what running such a trace does when a command fails.
 */
module Dispatcher {
  import opened Strings
  import opened Resolver

  /** The external commands a download issues, in the order it issues them. */
  datatype Action =
    | ChangeDir(path: string) // `cd` into the destination
    | Clone(url: string)      // `git clone url --progress --recursive`
    | Fetch(url: string)      // `wget url --no-clobber`: an existing file of that name is kept, not fetched again
    | Unzip(file: string)     // `unzip file`
    | Untar(file: string)     // `tar -xvzf file`
    | Remove(file: string)    // `rm file`

  const GitFormat := "git"
  const ZipFormat := "zip"
  const TarGzFormat := "tar.gz"

  predicate IsArchiveFormat(format: string)
  {
    format == ZipFormat || format == TarGzFormat
  }

  /**
   * `archiveDownload`: fetch the URL, extract the file it was saved as (its last
   * `/`-separated segment) with the tool its type names, then remove that file.
   */
  function ArchiveDownload(url: string, archiveType: string): seq<Action>
  {
    var filename := LastSegment(url);
    if archiveType == ZipFormat then [Fetch(url), Unzip(filename), Remove(filename)]
    else if archiveType == TarGzFormat then [Fetch(url), Untar(filename), Remove(filename)]
    else [Fetch(url), Remove(filename)]
  }

  /** `downloadFromRecord`: change into the destination, then run the strategy the job's format selects. */
  function DownloadFromRecord(job: Job): seq<Action>
  {
    var cd := ChangeDir(job.destination);
    if job.format == GitFormat then [cd, Clone(job.url)]
    else if IsArchiveFormat(job.format) then [cd] + ArchiveDownload(job.url, job.format)
    else [cd]
  }

  /**
   * Dispatch by format. Every download first issues a change of directory to its
   * destination. A `git` job then only clones its URL; a `zip` or `tar.gz` job
   * fetches its URL, extracts the file named by the URL's last segment with `unzip`
   * or `tar`, and removes that file; a job of any other format retrieves nothing.
   */
  lemma DispatchByFormat(job: Job)
    ensures job.format == GitFormat ==>
      DownloadFromRecord(job) == [ChangeDir(job.destination), Clone(job.url)]
    ensures job.format == ZipFormat ==>
      DownloadFromRecord(job) ==
        [ChangeDir(job.destination), Fetch(job.url), Unzip(LastSegment(job.url)), Remove(LastSegment(job.url))]
    ensures job.format == TarGzFormat ==>
      DownloadFromRecord(job) ==
        [ChangeDir(job.destination), Fetch(job.url), Untar(LastSegment(job.url)), Remove(LastSegment(job.url))]
    ensures job.format != GitFormat && !IsArchiveFormat(job.format) ==>
      DownloadFromRecord(job) == [ChangeDir(job.destination)]
  {
  }

  /** The commands of a batch of downloads, one download after the other. */
  function Dispatched(jobs: seq<Job>): seq<Action>
    decreases |jobs|
  {
    if jobs == [] then [] else DownloadFromRecord(jobs[0]) + Dispatched(jobs[1..])
  }

  lemma {:induction false} DispatchedConcat(a: seq<Job>, b: seq<Job>)
    ensures Dispatched(a + b) == Dispatched(a) + Dispatched(b)
    decreases |a|
  {
    if a != [] {
      DispatchedConcat(a[1..], b);
      assert (a + b)[0] == a[0] && (a + b)[1..] == a[1..] + b;
      var head := DownloadFromRecord(a[0]);
      assert Dispatched(a + b) == head + (Dispatched(a[1..]) + Dispatched(b));
      assert head + (Dispatched(a[1..]) + Dispatched(b)) == (head + Dispatched(a[1..])) + Dispatched(b);
    } else {
      assert a + b == b;
    }
  }

  /**
   * In a trace, every `Remove` names the file that the `Fetch` two steps before
   * saves its URL's last segment as, and the step just before extracts that file.
   */
  ghost predicate RemovesOnlyExtractedArchives(trace: seq<Action>)
  {
    forall k :: 0 <= k < |trace| && trace[k].Remove? ==>
      2 <= k && trace[k - 2].Fetch? && LastSegment(trace[k - 2].url) == trace[k].file &&
      (trace[k - 1] == Unzip(trace[k].file) || trace[k - 1] == Untar(trace[k].file))
  }

  lemma RemovesConcat(a: seq<Action>, b: seq<Action>)
    requires RemovesOnlyExtractedArchives(a) && RemovesOnlyExtractedArchives(b)
    ensures RemovesOnlyExtractedArchives(a + b)
  {
    forall k | 0 <= k < |a + b| && (a + b)[k].Remove?
      ensures 2 <= k && (a + b)[k - 2].Fetch? && LastSegment((a + b)[k - 2].url) == (a + b)[k].file &&
        ((a + b)[k - 1] == Unzip((a + b)[k].file) || (a + b)[k - 1] == Untar((a + b)[k].file))
    {
      if k >= |a| {
        assert (a + b)[k] == b[k - |a|];
      }
    }
  }

  lemma OneDownloadRemovesOnlyItsArchive(job: Job)
    ensures RemovesOnlyExtractedArchives(DownloadFromRecord(job))
  {
    DispatchByFormat(job);
    var steps := DownloadFromRecord(job);
    if IsArchiveFormat(job.format) {
      var f := LastSegment(job.url);
      assert steps[3] == Remove(f) && steps[1] == Fetch(job.url);
      assert forall k :: 0 <= k < 3 ==> !steps[k].Remove?;
    }
  }

  /**
   * Across a whole batch of issued commands, every `rm` names the file that the
   * `wget` two commands earlier saves its URL's last segment as, and comes right
   * after that file's extraction.
   */
  lemma {:induction false} DispatchRemovesOnlyExtractedArchives(jobs: seq<Job>)
    ensures RemovesOnlyExtractedArchives(Dispatched(jobs))
    decreases |jobs|
  {
    if jobs != [] {
      DispatchRemovesOnlyExtractedArchives(jobs[1..]);
      var steps := DownloadFromRecord(jobs[0]);
      OneDownloadRemovesOnlyItsArchive(jobs[0]);
      assert Dispatched(jobs) == steps + Dispatched(jobs[1..]);
      RemovesConcat(steps, Dispatched(jobs[1..]));
    }
  }

  /** The one URL a single download clones or fetches, according to its format. */
  lemma DownloadFromRecordRetrieves(job: Job)
    ensures forall u :: Clone(u) in DownloadFromRecord(job) <==> job.format == GitFormat && job.url == u
    ensures forall u :: Fetch(u) in DownloadFromRecord(job) <==> IsArchiveFormat(job.format) && job.url == u
  {
    var steps := DownloadFromRecord(job);
    var cd := ChangeDir(job.destination);
    if job.format == GitFormat {
      assert steps == [cd, Clone(job.url)];
    } else if IsArchiveFormat(job.format) {
      var f := LastSegment(job.url);
      assert steps == [cd, Fetch(job.url), steps[2], Remove(f)];
      assert steps[2] == Unzip(f) || steps[2] == Untar(f);
    } else {
      assert steps == [cd];
    }
  }

  /**
   * A batch clones exactly the URLs of its `git` jobs and fetches exactly the
   * URLs of its `zip` and `tar.gz` jobs.
   */
  lemma {:induction false} DispatchRetrievesEveryJob(jobs: seq<Job>)
    ensures forall u :: Clone(u) in Dispatched(jobs) <==>
      exists j :: j in jobs && j.format == GitFormat && j.url == u
    ensures forall u :: Fetch(u) in Dispatched(jobs) <==>
      exists j :: j in jobs && IsArchiveFormat(j.format) && j.url == u
    decreases |jobs|
  {
    if jobs != [] {
      DispatchRetrievesEveryJob(jobs[1..]);
      DownloadFromRecordRetrieves(jobs[0]);
      var steps := DownloadFromRecord(jobs[0]);
      var rest := Dispatched(jobs[1..]);
      assert Dispatched(jobs) == steps + rest;
      assert forall j :: j in jobs <==> j == jobs[0] || j in jobs[1..];
      assert forall a :: a in steps + rest <==> a in steps || a in rest;
    }
  }

  /**
   * Running a trace: the commands are run in order and the first one that fails
   * (a non-zero exit raises) ends the run. The result is what was attempted.
   */
  function Execute(trace: seq<Action>, fails: Action -> bool): seq<Action>
    decreases |trace|
  {
    if trace == [] then []
    else if fails(trace[0]) then [trace[0]]
    else [trace[0]] + Execute(trace[1..], fails)
  }

  /**
   * What is attempted is a prefix of the trace in which only the last command may
   * have failed, and it stops short of the end only at a failure.
   */
  lemma {:induction false} ExecuteRunsUntilFirstFailure(trace: seq<Action>, fails: Action -> bool)
    ensures |Execute(trace, fails)| <= |trace|
    ensures Execute(trace, fails) == trace[..|Execute(trace, fails)|]
    ensures forall k :: 0 <= k < |Execute(trace, fails)| - 1 ==> !fails(trace[k])
    ensures |Execute(trace, fails)| < |trace| ==>
      |Execute(trace, fails)| >= 1 && fails(trace[|Execute(trace, fails)| - 1])
    decreases |trace|
  {
    if trace != [] && !fails(trace[0]) {
      ExecuteRunsUntilFirstFailure(trace[1..], fails);
      var rest := Execute(trace[1..], fails);
      assert trace[1..][..|rest|] == trace[1..|rest| + 1];
      assert forall k :: 1 <= k < |rest| + 1 ==> trace[k] == trace[1..][k - 1];
    }
  }

  /** Once a command in `a` fails, nothing after `a` runs. */
  lemma {:induction false} ExecuteStopsAtFailure(a: seq<Action>, b: seq<Action>, fails: Action -> bool, k: nat)
    requires k < |a| && fails(a[k])
    ensures Execute(a + b, fails) == Execute(a, fails)
    decreases |a|
  {
    assert (a + b)[0] == a[0];
    if !fails(a[0]) {
      assert (a + b)[1..] == a[1..] + b;
      ExecuteStopsAtFailure(a[1..], b, fails, k - 1);
    }
  }

  /** Appending one download to a batch appends its commands to the batch's trace. */
  lemma DispatchedSnoc(jobs: seq<Job>, job: Job)
    ensures Dispatched(jobs + [job]) == Dispatched(jobs) + DownloadFromRecord(job)
  {
    DispatchedConcat(jobs, [job]);
    assert [job][1..] == [];
    assert Dispatched([job]) == DownloadFromRecord(job) + [];
  }

  /** Running the same commands first, then traces that run alike, runs alike. */
  lemma {:induction false} ExecuteAfterCommonPrefix(p: seq<Action>, x: seq<Action>, y: seq<Action>, fails: Action -> bool)
    requires Execute(x, fails) == Execute(y, fails)
    ensures Execute(p + x, fails) == Execute(p + y, fails)
    decreases |p|
  {
    if p == [] {
      assert p + x == x && p + y == y;
    } else {
      ExecuteAfterCommonPrefix(p[1..], x, y, fails);
      assert (p + x)[0] == p[0] && (p + x)[1..] == p[1..] + x;
      assert (p + y)[0] == p[0] && (p + y)[1..] == p[1..] + y;
    }
  }

  /**
   * A failing command aborts the whole batch: when some command of job `i` fails,
   * no command of a later job is run.
   */
  lemma {:induction false} FailureAbortsBatch(jobs: seq<Job>, fails: Action -> bool, i: nat, k: nat)
    requires i < |jobs| && k < |DownloadFromRecord(jobs[i])| && fails(DownloadFromRecord(jobs[i])[k])
    ensures Execute(Dispatched(jobs), fails) == Execute(Dispatched(jobs[..i + 1]), fails)
    decreases i
  {
    var head := DownloadFromRecord(jobs[0]);
    var front := jobs[..i + 1];
    assert front[0] == jobs[0];
    assert Dispatched(jobs) == head + Dispatched(jobs[1..]);
    assert Dispatched(front) == head + Dispatched(front[1..]);
    if i == 0 {
      assert front[1..] == [];
      assert head + Dispatched(front[1..]) == head;
      ExecuteStopsAtFailure(head, Dispatched(jobs[1..]), fails, k);
    } else {
      FailureAbortsBatch(jobs[1..], fails, i - 1, k);
      assert jobs[1..][..i] == front[1..];
      ExecuteAfterCommonPrefix(head, Dispatched(jobs[1..]), Dispatched(front[1..]), fails);
    }
  }

  /**
   * A failed extraction keeps the archive: when unpacking the archive's file fails,
   * the removal that would follow it is never run.
   */
  lemma ExtractFailureKeepsArchive(job: Job, fails: Action -> bool)
    requires IsArchiveFormat(job.format)
    requires fails(DownloadFromRecord(job)[2])
    ensures forall a :: a in Execute(DownloadFromRecord(job), fails) ==> !a.Remove?
  {
    var steps := DownloadFromRecord(job);
    DispatchByFormat(job);
    assert |steps| == 4 && !steps[0].Remove? && !steps[1].Remove? && !steps[2].Remove?;
    ExecuteStopsAtFailure(steps[..3], steps[3..], fails, 2);
    assert steps == steps[..3] + steps[3..];
    ExecuteRunsUntilFirstFailure(steps[..3], fails);
  }
}

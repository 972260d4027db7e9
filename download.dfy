/**
 * The `download` command: find the corpus, settle the destination, and run
 * `downloadFromRecord` for every selected variant or mirror URL, collecting the
 * commands issued into a trace.
 */
module Download {
  import opened Wrappers
  import opened Strings
  import opened Registry
  import opened Resolver
  import opened Dispatcher

  /** The settings read from the configuration file. */
  datatype Config = Config(listFilename: string, downloadTo: string)

  /** What `download` does, as a function: resolve, then dispatch every job in order. */
  function Plan(registry: seq<CorpusRecord>, shortname: string, destination: Option<string>,
                markup: Option<string>, config: Config): Result<seq<Action>, DownloadError>
  {
    match Resolve(registry, shortname, destination, markup, config.downloadTo)
    case Success(jobs) => Success(Dispatched(jobs))
    case Failure(e) => Failure(e)
  }

  /**
   * `download`: fails, issuing no command, when the shortname is unknown or the
   * markup is ambiguous; otherwise issues, job after job, the commands of every
   * resolved download.
   */
  method Download(registry: seq<CorpusRecord>, shortname: string, destination: Option<string>,
                  markup: Option<string>, config: Config)
    returns (outcome: Result<seq<Action>, DownloadError>)
    ensures outcome == Plan(registry, shortname, destination, markup, config)
  {
    var found := Lookup(registry, shortname);
    if found.None? {
      return Failure(ShortnameNotFound);
    }
    var dest := if destination.None? then config.downloadTo else destination.value;
    assert Resolve(registry, shortname, destination, markup, config.downloadTo) ==
      ResolveText(found.value.text, markup, dest);
    match found.value.text {
      case Alternatives(variants) =>
        if markup.None? {
          return Failure(AmbiguousMarkup(|variants|, Join(Markups(variants), ", ")));
        }
        var trace := DownloadSelected(variants, Split(markup.value, ','), dest);
        return Success(trace);
      case Mirrors(_, format, urls) =>
        var trace := DownloadMirrors(urls, format, dest);
        return Success(trace);
      case Single(variant) =>
        var job := JobOf(variant, dest);
        assert [] + [job] == [job];
        DispatchedSnoc([], job);
        assert Dispatched([]) + DownloadFromRecord(job) == DownloadFromRecord(job);
        return Success(DownloadFromRecord(job));
    }
  }

  /** The loop over a list of variants: every variant whose tag was asked for is downloaded, in list order. */
  method DownloadSelected(variants: seq<Variant>, markups: seq<string>, dest: string) returns (trace: seq<Action>)
    ensures trace == Dispatched(Selected(variants, markups, dest))
  {
    trace := [];
    for i := 0 to |variants|
      invariant trace == Dispatched(Selected(variants[..i], markups, dest))
    {
      var record := variants[i];
      var done := Selected(variants[..i], markups, dest);
      assert variants[..i + 1] == variants[..i] + [record];
      SelectedConcat(variants[..i], [record], markups, dest);
      assert [record][1..] == [];
      if record.markup in markups {
        assert Selected(variants[..i + 1], markups, dest) == done + [JobOf(record, dest)];
        DispatchedSnoc(done, JobOf(record, dest));
        trace := trace + DownloadFromRecord(JobOf(record, dest));
      } else {
        assert Selected(variants[..i + 1], markups, dest) == done + [];
        assert done + [] == done;
      }
    }
    assert variants[..|variants|] == variants;
  }

  /** The loop over the URLs of one variant: every URL is downloaded with the variant's format, in URL order. */
  method DownloadMirrors(urls: seq<string>, format: string, dest: string) returns (trace: seq<Action>)
    ensures trace == Dispatched(MirrorJobs(urls, format, dest))
  {
    trace := [];
    for i := 0 to |urls|
      invariant trace == Dispatched(MirrorJobs(urls[..i], format, dest))
    {
      assert MirrorJobs(urls[..i + 1], format, dest) ==
        MirrorJobs(urls[..i], format, dest) + [Job(urls[i], format, dest)];
      DispatchedSnoc(MirrorJobs(urls[..i], format, dest), Job(urls[i], format, dest));
      trace := trace + DownloadFromRecord(Job(urls[i], format, dest));
    }
    assert urls[..|urls|] == urls;
  }

  /**
   * In the commands `download` issues, every `rm` names the file that the `wget`
   * two commands earlier saves its URL's last segment as and comes right after that
   * file's extraction, and every clone or fetch is of a resolved download's URL.
   */
  lemma DownloadTraceIsSafe(registry: seq<CorpusRecord>, shortname: string, destination: Option<string>,
                            markup: Option<string>, config: Config)
    requires Plan(registry, shortname, destination, markup, config).Success?
    ensures RemovesOnlyExtractedArchives(Plan(registry, shortname, destination, markup, config).value)
    ensures forall u :: Clone(u) in Plan(registry, shortname, destination, markup, config).value ==>
      exists j :: j in Resolve(registry, shortname, destination, markup, config.downloadTo).value && j.url == u
  {
    var jobs := Resolve(registry, shortname, destination, markup, config.downloadTo).value;
    DispatchRemovesOnlyExtractedArchives(jobs);
    DispatchRetrievesEveryJob(jobs);
  }
}

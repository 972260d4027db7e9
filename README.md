# corpus-downloader, modelled in Dafny

`corpus` is a command-line tool that lists textual corpora from a registry (the
corpus list) and downloads a chosen corpus. This project models its core and
proves properties of the model. The core has three parts:

- **Registry filtering.** The `list` command shows the corpus list projected on
  title, centuries and categories. It then narrows the table by a comma-separated
  `--centuries` filter and after that by a `--categories` filter. A row stays when
  its cell contains any of the comma-separated values as a substring. A row whose
  cell is missing is dropped.
- **Record resolution.** The `download` command checks that the shortname is in
  the registry and fills in the configured `downloadTo` when no destination is
  given. It then turns the corpus's `text` entry into an ordered list of downloads
  (url, file format, destination). `text` has one of three shapes:
  - a list of markup variants, which needs `--markup` and fails without it, naming
    every tag;
  - one variant whose `url` is a list, giving one download per URL;
  - one variant with one URL, giving one download.
- **Dispatch.** `downloadFromRecord` issues a change of directory to the
  destination and picks a strategy by file format. `git` clones the URL. `zip` and `tar.gz` fetch the URL,
  extract the file named by the URL's last `/`-separated segment, and remove that
  file. Any other format retrieves nothing.

Modules, one per component:

- `Wrappers` (wrappers.dfy): `Option` and `Result`.
- `Strings` (strings.dfy): Python's `split` and `join`, substring search, and the
  last URL segment.
- `Registry` (registry.dfy): the records, the three-case `Text` datatype, lookup,
  `filterCorpusList` and `showCorpusList`.
- `Resolver` (resolver.dfy): jobs, the two download errors, and resolution.
- `Dispatcher` (dispatcher.dfy): the trace of external commands (`ChangeDir`,
  `Clone`, `Fetch`, `Unzip`, `Untar`, `Remove`), dispatch by format, and what a
  trace does when a command fails.
- `Download` (download.dfy): the `download` command as a method. It has the
  source's two loops, one over the variants and one over the mirror URLs, and
  appends each dispatched download to a trace. It is proved equal to
  resolve-then-dispatch.
- `Scenarios` (scenarios.dfy): three concrete runs. A single zip corpus; a
  two-markup corpus with and without `--markup`; and `--centuries=16th,17th`.

The corpus list comes in already parsed, as a sequence of records. The
configuration comes in as a `Config` value. The external commands (`cd`,
`git clone`, `wget`, `unzip`, `tar`, `rm`) are values in a trace. Whether a
command fails is a parameter `fails: Action -> bool`.

Some facts about the code that the model keeps:

- The code filters only centuries and categories; there is no `languages` filter.
- The code has no `yaml` strategy and raises no "unsupported format" error. A job
  of another format only changes directory.
- A failing external command raises and aborts the whole batch
  (`FailureAbortsBatch`). Later jobs are not attempted.
- The code never creates the destination. It only changes into it.
- `--markup ""` is not a missing selector. It selects the variants whose tag is
  the empty string.

## Model

| member | source | states |
|---|---|---|
| Strings.Split | corpus/corpus.py:143 | `split(',')` always gives at least one piece, no piece holds the separator, and joining the pieces with the separator gives back the input |
| Strings.SplitJoin | corpus/corpus.py:85 | splitting undoes joining when no piece holds the separator, so the selector's and the filter's value lists are recovered exactly |
| Strings.LastSegmentIsSuffix | corpus/corpus.py:190 | the archive filename `url.split('/')[-1]` holds no slash, ends the URL, and is preceded by a slash unless it is the whole URL |
| Strings.LastSegmentAfterSlash | corpus/corpus.py:190 | for a URL `front/name` with a slash-free `name`, the archive filename is exactly `name` |
| Strings.ContainsIff | corpus/corpus.py:87 | the substring test holds exactly when the value occurs at some position of the cell |
| Strings.JoinContainsEach | corpus/corpus.py:139 | every joined markup tag occurs in the `", "`-joined list |
| Registry.AnyContainsIff | corpus/corpus.py:85-87 | the pipe-joined alternatives match a cell exactly when at least one value is a substring of it |
| Registry.Project | corpus/corpus.py:93 | selecting the displayed fields keeps one row per record, in order, with that record's shortname, title, centuries and categories |
| Registry.WhereKeeps | corpus/corpus.py:87 | the boolean mask keeps exactly the matching rows, as an order-preserving subsequence |
| Registry.FilterCorpusList | corpus/corpus.py:84-88 | keeps exactly the rows whose cell contains one of the comma-separated values; a row with a missing cell is never kept; the result is an order-preserving subsequence of the input |
| Registry.ShowCorpusList | corpus/corpus.py:90-99 | a row is shown exactly when it satisfies every given filter (centuries AND categories); an absent filter admits every row; with neither filter the projected table is shown whole, in order |
| Registry.WhereConcat | corpus/corpus.py:87 | filtering acts row by row: filtering a concatenation is concatenating the filtered parts |
| Registry.FilterCommutes | corpus/corpus.py:95-99 | applying the centuries filter and then the categories filter gives the same rows as the other order |
| Registry.FilterIdempotent | corpus/corpus.py:84-88 | applying the same filter a second time changes nothing |
| Registry.Lookup | corpus/corpus.py:119-125 | finds a record with the shortname exactly when one exists, and returns the first such record |
| Registry.LookupUnique | corpus/corpus.py:125 | with unique shortnames, looking up a record's shortname returns that record |
| Resolver.SelectedKeeps | corpus/corpus.py:143-150 | a download is in the selection exactly when it is the download of a variant whose markup is among the selector's tags; the selection is an order-preserving subsequence of all the variants' downloads |
| Resolver.SelectedByIndex | corpus/corpus.py:143-150 | the k-th download is that of the k-th variant (in list order) whose markup is among the selector's tags, so there is exactly one download per selected variant and none for the others, even when variants share url and format |
| Resolver.SelectedConcat | corpus/corpus.py:145-150 | selection acts variant by variant over the list |
| Resolver.ResolveText | corpus/corpus.py:129-162 | fails exactly for a variant list without a selector, with an error counting the variants; a selector yields exactly one download per selected variant, position by position in list order; K mirror URLs yield K downloads in URL order with the variant's format; one URL yields one download; every download goes to the destination |
| Resolver.Resolve | corpus/corpus.py:117-125 | an unknown shortname is an error and nothing else gives that error; otherwise the result, success or ambiguity error, is that of resolving the first record with that shortname, into the given destination or the configured `downloadTo` when none is given |
| Resolver.AmbiguityListsEveryTag | corpus/corpus.py:137-140 | the ambiguity error carries the number of variants and the tags joined with `", "` in list order, and each tag occurs in it |
| Resolver.SelectorIgnoredForOneVariant | corpus/corpus.py:152-162 | for a single variant, with one URL or several, the markup argument makes no difference |
| Dispatcher.DispatchByFormat | corpus/corpus.py:164-198 | every download first issues a change of directory to its destination; `git` then only clones; `zip` and `tar.gz` fetch, then unzip or untar the URL's last segment, then remove it; any other format retrieves nothing |
| Dispatcher.DownloadFromRecordRetrieves | corpus/corpus.py:173-176 | one download clones its URL exactly when its format is `git`, and fetches it exactly when its format is `zip` or `tar.gz` |
| Dispatcher.DispatchRetrievesEveryJob | corpus/corpus.py:145-156 | a batch clones exactly the URLs of its `git` jobs and fetches exactly the URLs of its archive jobs |
| Dispatcher.OneDownloadRemovesOnlyItsArchive | corpus/corpus.py:185-198 | within one download's commands, every `rm` names the file that the `wget` two commands earlier saves the URL's last segment as, and comes right after the `unzip` or `tar` of that file |
| Dispatcher.DispatchRemovesOnlyExtractedArchives | corpus/corpus.py:185-198 | across a batch's commands, every `rm` names the file that the `wget` two commands earlier saves the URL's last segment as, and comes right after that file's extraction |
| Dispatcher.ExecuteRunsUntilFirstFailure | corpus/corpus.py:188-198 | running a trace attempts a prefix of it in which only the last command may have failed, and it stops early only at a failure |
| Dispatcher.FailureAbortsBatch | corpus/corpus.py:145-156 | once a command of job `i` fails, no command of a later job runs |
| Dispatcher.ExtractFailureKeepsArchive | corpus/corpus.py:191-198 | when extraction fails, the archive is not removed |
| Download.Download | corpus/corpus.py:108-162 | the command's trace is resolve-then-dispatch: the same error before any command, or the concatenated commands of every resolved download in order |
| Download.DownloadSelected | corpus/corpus.py:143-150 | the loop over variants issues the commands of exactly the selected variants, in list order |
| Download.DownloadMirrors | corpus/corpus.py:152-156 | the loop over the mirror URLs issues the commands of one download per URL, in URL order |
| Download.DownloadTraceIsSafe | corpus/corpus.py:145-198 | in the commands a successful download issues, every `rm` follows the `wget` and the extraction of the same file name, and every clone is of a resolved job's URL |
| Scenarios.ScenarioSingleZip | corpus/corpus.py:157-162 | a single zip corpus downloaded to `/tmp/x` does exactly: change directory, fetch, unzip `poe.zip`, remove `poe.zip` |
| Scenarios.ScenarioTwoMarkups | corpus/corpus.py:133-150 | a TEI and HTML corpus without `--markup` fails naming `"TEI, HTML"`; with `--markup=HTML` it gives exactly the HTML download |
| Scenarios.ScenarioCenturyFilter | corpus/corpus.py:95-96 | `--centuries=16th,17th` over 15th, 16th and 18th-century records shows only the 16th-century one |

## Left out

- The click CLI: option parsing, help text, `--verbose` and `--debug`, and the logging setup. These are plumbing.
- `Config` and reading `config.yaml`: file I/O. Their result is the `Config` value passed in.
- `readCorpusList`: opening and YAML-parsing the corpus list, and building the pandas DataFrame. The model takes the parsed records; `set_index('shortname')` becomes `Lookup`.
- Registry.FilterCorpusList: does not model the regular-expression semantics of pandas `str.contains`. The `|`-joined values are taken as plain substring alternatives, so values holding regex metacharacters (`.`, `*`, `(`, …) match differently in the source.
- A cell holding something other than a string: pandas gives no match for it, and the model has only "present string" or "missing".
- All printing (`print`, `click.echo`, the table display, git's progress output, `pwd`).
- The working directory that `sh.cd` leaves behind. The code changes directory for every download and never changes back, so with a relative destination each later download's `cd` is resolved inside the previous destination. The model records each `cd` as an action and does not track a current directory.
- Dispatcher.Execute: the failure predicate `fails` depends only on the command, not on what ran before, so the model cannot express a command that succeeds once and fails when repeated (a second `git clone` of the same URL into an existing directory).
- Dispatcher.DispatchRemovesOnlyExtractedArchives: speaks of the issued commands, not of files. `wget --no-clobber` does not fetch when a file of the archive's name already exists in the destination, yet the code still extracts and removes that file; so a pre-existing file of that name (say a `master.zip` left by another corpus) is extracted and deleted without being fetched.
- The real effect of the external commands: network, filesystem, `wget --no-clobber` skipping an existing file. They are actions in a trace, and their failure is the `fails` parameter.
- Error message text: only its parts are modelled, namely the number of variants and the joined tags.
- A variant inside a list-shaped `text` whose `url` is itself a list. The model gives such variants a single URL.
- Registry.Lookup: does not model pandas' behaviour for duplicate shortnames. It returns the first match, and `LookupUnique` assumes the registry's uniqueness invariant.
- The fixed `fields` argument of `showCorpusList`. The `list` command always passes title, centuries and categories, so `Project` uses those.
- The root `corpus.py` (a stub that does not run) and `setup.py` (packaging metadata).

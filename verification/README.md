# Weather-data mirror: the fetch decision core in Dafny

The mirror keeps a dated local copy of a catalog of remote CSV files. The
catalog maps each station directory to its URLs. One run fetches every URL
with a conditional GET. It saves a changed file as
`<dir>/<name>-<YYYY-MM-DD>.csv` and remembers each URL's `Last-Modified` and
`ETag` in a metadata store for the next run. A companion tool lists the
station directories that the catalog no longer names.

This project models the deterministic core of both programs as pure
functions and proves properties about it.

- `http.dfy` (module `Http`) holds header maps, the request, the response
  fields that are consulted, and the 200 and 304 status codes.
- `paths.dfy` (module `Paths`) models Go's `filepath.Base` with `/` as the
  separator, `strings.TrimSuffix`, the join, and the dated output path.
- `fetch.dfy` (module `Fetch`) models `fetchOne` as a transition on a
  `Store`, which holds the metadata map and the saved files. The step builds
  the conditional headers, classifies the reply, and on a 200 whose body
  reached its file it replaces the URL's entry wholesale.
- `pipeline.dfy` (module `Pipeline`) models `main`. The worker pool becomes a
  sequential fold `RunTasks` of the step over the task list. `CatalogTasks`
  enumerates the catalog in a given directory order. `Execute` decides
  between an abort, caused by a failed directory creation, and a finished
  run. A finished run always persists the metadata and exits 1 exactly when
  some task failed.
- `closed_stations.dfy` (module `ClosedStations`) models the filter loop of
  `closed-stations.go`.

When every URL appears once in the catalog, the fold is a faithful
abstraction of the concurrent pool, because each task then reads and writes
only its own URL's entry. In that case the final metadata and the error flag
are the same for every order of the tasks (`ScheduleIndependent`). So are the persisted metadata and the
exit status for every iteration order of the catalog map
(`ExecuteIndependentOfOrder`). The saved files are different:
`SharedOutputPathLastWriterWins` shows that two distinct URLs of one
directory can share a last element, for example `http://a/x.csv` and
`http://b/x.csv`. Both are then saved to the same path, and the file ends up
holding the body of whichever task ran last.

Foreign behaviour is passed in as input:

- `Context.parsesAsUrl` stands for the URL parse inside `http.NewRequest`.
- `Context.isHttpDate` stands for `http.ParseTime`, which accepts the
  HTTP-date formats of section 7.1.1.1 of RFC 7231.
- `Context.today` is the formatted date.
- Each task receives a `TaskIO`. Its `server` gives the reply to the request
  actually built, and its `disk` gives the outcome of the temp-file, copy and
  rename steps. The error of closing the temporary file is discarded, so it
  is not among those outcomes.
- `Execute` receives the directory-creation outcome `mkdirOk` and a
  directory order, which stands for Go's map iteration order.
- The closed-stations filter receives the directory listing as
  `(name, isDir)` entries.

## Model

`Paths.Base`, `Paths.TrimSuffix`, `Paths.OutputPath` and `Fetch.BuildRequest` have their contracts stated as separate lemmas (`BaseShape`, `TrimSuffixRoundTrip`, `OutputPathShape`, `BuildRequestShape`). This keeps those facts out of every proof that only calls the functions.

| member | source | states |
|---|---|---|
| `Paths.BaseShape` | main.go:130 | The contract of `Paths.Base`, which models `filepath.Base`. The base is never empty. It is "." for the empty URL and "/" for a URL made only of separators. Otherwise it is the separator-free last element of the URL once trailing separators are removed. |
| `Paths.BaseOfElement` | main.go:130 | For any non-empty, separator-free `elem`, the base of `<prefix>/<elem>` is exactly `elem`. |
| `Paths.BaseIgnoresTrailingSeparator` | main.go:130 | A trailing `/` does not change the base of a non-empty URL. |
| `Paths.TrimSuffixRoundTrip` | main.go:131 | The contract of `Paths.TrimSuffix`, which models `strings.TrimSuffix`. TrimSuffix undoes appending the suffix. A string that ends with the suffix is restored by appending it back. A string that does not end with it is returned unchanged. |
| `Paths.OutputPathShape` | main.go:130-131 | The contract of `Paths.OutputPath`, which computes `outPath`. The output path is `<dir>/`, then a stem, then `-<today>.csv`. The stem is either the base minus exactly one `.csv`, or the whole base when the base does not end in `.csv`. |
| `Paths.OutputPathInDirectory` | main.go:131 | When the date has no separator and the URL is not all separators, nothing after `<dir>/` is a separator, so the file lands directly in the task directory. |
| `Paths.OutputPathOfCsvUrl` | main.go:130-131 | A URL ending in `/<name>.csv` is saved as `<dir>/<name>-<today>.csv`. With `name = x.csv` this shows that only one `.csv` is removed. |
| `Paths.OutputPathOfOtherUrl` | main.go:130-131 | A URL whose last element does not end in `.csv` keeps that element whole, followed by `-<today>.csv`. |
| `Paths.OutputPathPerDay` | main.go:131 | Two different dates never give the same file for a URL, so there is one file per URL per day. |
| `Fetch.Lookup` | main.go:101-103 | The lookup of a URL yields its stored entry, or, for a URL that is absent, the zero value with no `LastModified` and no `ETag`. |
| `Fetch.BuildRequestShape` | main.go:105-114 | The contract of `Fetch.BuildRequest`. The request is a GET of exactly the task's URL. Its only headers are the two conditional ones, and the stored entry can be read back from them. |
| `Fetch.FirstFetchUnconditional` | main.go:101-114 | A URL with no stored entry is requested with no header at all, so its first fetch is unconditional. |
| `Fetch.ConditionalHeaders` | main.go:109-114 | `If-Modified-Since` is present iff the stored `LastModified` is non-empty, and then it carries exactly that value. `If-None-Match` behaves the same way for the stored `ETag`. No other header is set. |
| `Fetch.ValidatorsRoundTrip` | main.go:109-114 | The stored entry can be read back exactly from the headers of the request built from it. |
| `Fetch.NewEntry` | main.go:151-160 | The new `LastModified` is non-empty iff the response's `Last-Modified` is non-empty and parses as an HTTP-date, and then it equals that header. The new `ETag` is non-empty iff the response's `ETag` is, and then it equals that header. |
| `Fetch.FetchOne` | main.go:98-166 | The step succeeds iff the reply is a 304, or a 200 whose body was saved. Anything other than a completed download leaves the whole store unchanged, including every request, transport, status, temp-file, copy and rename error. A download replaces the URL's entry with `NewEntry` and puts exactly the body at the output path. No other URL's entry and no other file changes. Each error case reports its own error. |
| `Fetch.FetchOneReadsOnlyOwnEntry` | main.go:101-164 | Two stores that agree on the task's URL give the same outcome and still agree on that URL afterwards. |
| `Fetch.NextRequestCarriesValidators` | main.go:109-160 | After a download, the next request for the URL carries the response's `ETag` as `If-None-Match` and its valid `Last-Modified` as `If-Modified-Since`. Each is present exactly when it was recorded. |
| `Fetch.UnchangedWhenETagMatches` | main.go:112-125 | Suppose an ETag is stored and the server answers 304 to any request carrying it (section 3.2 of RFC 7232). Then the step succeeds and the store is unchanged. |
| `Fetch.SecondRunUnchanged` | main.go:112-164 | After a download whose response had an ETag, suppose a second run meets a server that honours that ETag. Then the second run succeeds, writes no file and leaves the metadata as the first run left it. |
| `Fetch.SecondRunUnchangedByDate` | main.go:109-164 | After a download whose response had a non-empty `Last-Modified` that parses as an HTTP-date, suppose a second run meets a server that answers 304 to any request carrying that `If-Modified-Since`. This is a hypothesis on the server. Section 3.3 of RFC 7232 has the server ignore `If-Modified-Since` when `If-None-Match` is also sent, which happens when the response also had an `ETag`. Then the second run succeeds, writes no file and leaves the metadata as the first run left it. |
| `Pipeline.RunTasks` | main.go:63-89 | After the run, every URL that no task names keeps its entry, including absence. Every path that no task writes keeps its file. |
| `Pipeline.RunHadErrorIff` | main.go:68-74 | `hadError` is true iff some task returned an error on the store its predecessors left. |
| `Pipeline.EarlierTasksKeepEntry` | main.go:101-103 | With distinct URLs, the tasks before task `i` leave task `i`'s entry as it was initially. |
| `Pipeline.RunFailsIffSomeTaskFails` | main.go:64-89 | With distinct URLs, `hadError` is true iff some task of the list would fail when run alone on the initial store. |
| `Pipeline.RunEntryIsOwnStep` | main.go:162-164 | With distinct URLs, each task's URL ends the run holding exactly what that task alone would leave there when run on the initial store. |
| `Pipeline.ScheduleIndependent` | main.go:57-89 | Any two orders of the same tasks with distinct URLs end with the same metadata and the same error flag. |
| `Pipeline.SharedOutputPathLastWriterWins` | main.go:130-145 | Take two downloading tasks with distinct URLs that share an output path. In either order, the file holds the body of the task that ran second. |
| `Pipeline.CatalogTasks` | main.go:80-87 | Exactly the pairs (dir, url) with `dir` a catalog key and `url` listed under it are dispatched as tasks. |
| `Pipeline.CatalogTasksDistinct` | main.go:80-87 | A catalog that lists each URL once yields tasks with distinct URLs, in any directory order. |
| `Pipeline.Execute` | main.go:51-96 | The run aborts iff some catalog directory cannot be created. Otherwise the metadata after all tasks is persisted whether or not a task failed, and the exit status is 1 iff `hadError`, else 0. |
| `Pipeline.ExecuteExitCode` | main.go:91-95 | For a catalog listing each URL once, a finished run exits 1 iff some (directory, URL) pair fails on its own. |
| `Pipeline.ExecuteListedEntries` | main.go:79-91 | For a catalog listing each URL once, every listed URL is persisted holding what its own fetch left on the initial store. |
| `Pipeline.ExecuteKeepsUnlisted` | main.go:79-91 | A URL the catalog does not list is persisted exactly as it was loaded. |
| `Pipeline.ExecuteIndependentOfOrder` | main.go:80-95 | For a catalog listing each URL once, any two directory orders abort alike, persist the same metadata and exit with the same status. |
| `ClosedStations.StaleNames` | closed-stations.go:28-38 | Every reported name belongs to a directory entry, is not hidden, is not `closed-stations` and is not a catalog key. Every directory entry with those properties is reported. |
| `ClosedStations.StaleNamesSubsequence` | closed-stations.go:28-36 | The report is a subsequence of the listing's names, so it keeps the listing order. |
| `ClosedStations.FindClosedStations` | closed-stations.go:16-38 | The loop over the listing, using the known-directory map built from the catalog, prints exactly `StaleNames` of the catalog's key set. The URL lists play no part. |

## Left out

- The goroutines, `sync.Mutex`, `sync.WaitGroup` and the task channel (main.go:57-89) are replaced by the sequential fold. When every URL appears once in the catalog, `ScheduleIndependent` is the argument that the fold covers every schedule for the metadata and the error flag.
- A URL listed twice in the catalog, under one directory or two, is not covered by the schedule argument. The fold is one serial schedule, in which the second task always sees the entry the first one stored. In the pool, both tasks can read the old `metadata[url]` (main.go:101-103) before either writes, so both may download.
- The HTTP client (`http.NewRequest`, `http.DefaultClient.Do`) is an input: URL parsing is `Context.parsesAsUrl`, and the reply is `TaskIO.server` applied to the built request. Redirects, timeouts and body streaming are not modelled.
- Header canonicalisation and multi-valued headers are not modelled. Headers are a map from canonical name to first value. This is why the ETag is looked up as `Etag`.
- `http.ParseTime` is the `Context.isHttpDate` predicate. The three date formats are not re-implemented.
- `time.Now().Format` is `Context.today`. The format `2006-01-02` is not assumed anywhere.
- The filesystem effects are abstracted. `os.CreateTemp`, `io.Copy` and `os.Rename` are one `DiskOutcome` input. The temporary file is not part of the store: the deferred `os.Remove` deletes it on every failure path, and the rename moves it on success. `os.Chtimes` is left out because its failure is ignored and modification times are not part of the store. `os.MkdirAll` is the `mkdirOk` input. `os.ReadDir` is the listing passed to `FindClosedStations`; its sorted order is not assumed.
- `filepath.Join` path cleaning is left out. The join is `dir + "/" + name` for a clean, non-empty directory. For a URL made only of `/`, Go would clean `dir//-<today>.csv` to `dir/-<today>.csv`.
- YAML decoding and encoding (`readDataSources`, `readMetadata`, `writeMetadata`) is left out. The catalog and the initial store are parameters, and the persisted metadata is a field of the `Finished` result. Fatal parse and write errors, the write-then-rename of the metadata file, and a decoded `null` map are not modelled.
- `Pipeline.Execute`: an aborted run carries no state, because the files written by tasks that were already running when `log.Fatalf` ended the process are not modelled.
- `Fetch.FetchOne`: the error of `tmpFile.Close()` (main.go:140) is discarded by the code and is not modelled. `Written` assumes the close kept the whole body. If the close loses data, Go still renames the file into place, records the validators and returns nil, and the model does not capture that broken file.
- `Fetch.FetchOne`: errors carry their kind and, for an unexpected status, the status code. The text of Go's error values is not kept.
- Logging (`log.Printf`), `log.Fatalf` and `os.Exit` are not modelled. The exit is the `code` of the `Finished` result, or `Aborted`.
